# Groundhold verification

Groundhold turns an infrastructure contract and a candidate into a sealed plan, applies the plan through provider
drivers, and keeps what happened in an append-only ledger of events. This project is a Dafny model of the parts its
guarantees rest on, with proofs that they hold for every input, every log and every run.

**The ledger, leases and fencing** (`Ledger`, `LedgerTheorems`, `LeaseTheorems`, `RuleTheorems`, `EventTheorems`,
`ScenarioEngine`, `ScenarioTheorems`).
The step machine of `scenario.py` is a class with the source's maps as mutable fields and a ghost log of committed
events. Every method is proved to keep the maps equal to a pure replay of that log, and a whole run is proved to leave
exactly the events of its committing steps, in their order and at their times. The guarantees are then stated about
logs: the hash chain visits exactly a capability's history down to genesis, no head value ever recurs, one lease covers
each mutation, tokens only grow, and a dead lease stays dead. The rules themselves are stated type by type about the
events of the log (`RuleTheorems.FaultFromLog`). Releases and renewals compare tokens capability by
capability and not the lease's sequence number, so the one-lease guarantee is claimed for mutations only.

**The executor** (`Graph`, `Plan`, `Executor`, and the theorems about them). The plan loader's Kahn check, the injected
replacement edges, the topological order and the action loop of `Apply` follow the source's loops; the driver is an
arbitrary function from actions to responses, and a crash is any prefix of the run's appends and driver calls. The
items a run produces are fed into the ledger model, so crash consistency, the fit of a whole run with the lease rules
and at-most-once execution are statements about the ledger's own log, with or without other writers between the items
(`ContentionTheorems`), and the bindings a run ends with are those of the log (`BindingTheorems`). `Expected` is what
should become of an action, defined from the dependency graph and the driver's fates alone, without the loop.
`ReceiptTheorems` and `ProjectionTheorems` say what a run records of each response, in its receipts and bindings, and
`RefusalTheorems` exactly when a call reaches the driver at all.

**Canonical form and identity** (`Canonical`, `CanonicalText`, and `_scalar_model` in `Scalars`). The printer has a
strict parser as its partner: the round trip gives injectivity up to numbers becoming strings, which is how the source
prints them, and the other way round every text the parser reads is the one the printer writes.
SHA-256 is an injective function whose values are never `genesis`.

**Comparison, verdicts and evidence** (`Scalars`, `OperatorTheorems`, `EditDistance`, `Sorting`, `Verify`,
`VerdictTheorems`, `Audit`, `EvidenceTheorems`). The early-exit loops are proved against strong-Kleene connectives, which
are themselves characterised by the ways refused positions could be settled; operators, verdicts and judgements are then
stated about the values, the declarations and the records alone. Verdicts, set attributes, the choice of an observation
and the security floor follow `verify.py`, `contract.py` and `audit.go`.

## Where the code falls short of its wording

Each of these has a lemma with a concrete input, and an exact condition for when the code does what was meant.

- `topoOrder` is described as safe because the loader proved acyclicity, but the replacement edges are added after
  that check, and an order may then not exist (`Plan.InjectionCanMakeCycle`, `ReplaceCycles.OrderableExactlyWhen`).
- The replacement backstop guards one id, the create's own `replaces` or else the last pinned target, and looks at
  creates alone. A `replaces` that disagrees with the delete defeats it, and so does a second delete of the capability,
  or an update before the delete (`ReplaceTheorems.DisagreeingReplacesEndsUnbound`,
  `ReplaceTheorems.TwoDeletesEndUnbound`, `ReplaceTheorems.UpdateEndsUnbound`,
  `ReplaceTheorems.KeepsSomethingExactlyWhen`).
- Sorting a set by spelling forgets the written order only if different elements are spelled differently
  (`Verify.OrderIsRemembered`, `Verify.OrderIsIgnoredExactlyWhen`), and it tells two spellings of one set apart unless
  each element's spellings keep to one side of every other element (`Verify.RespelledSetDiffers`,
  `Verify.SetEqualsDecidesExactlyWhen`).
- The choice between observations of one second depends on map order, and so does the choice among times of which one
  cannot be read (`Audit.EqualTimesDependOnOrder`, `Audit.UnreadableTimeDependsOnOrder`,
  `Audit.OrderIsIrrelevantExactlyWhen`).

## Assumptions

- Events and plans have passed the document checks: capabilities are not empty, tokens are at least 1, action ids are
  unique and non-empty, dependencies are known, an action's capability is in the write set and the write set is pinned.
- Idempotency keys are distinct within a capability (`DistinctKeys`), and generations and tokens stay in the range the
  canonical form accepts (`FitsPlan`, implied by `RunTheorems.SmallGenerationsFit`; `Uncontended`).
- The maximality of a chosen observation is claimed where the time of every sufficient record can be read (`AllDated`).

## Model

| member | source | states |
|---|---|---|
| `Canonical.FormatNumber` | ref/groundholdlib/canonical.py:46-63 | the loop over 1 to 17 decimals returns the first fixed-point text that reads back as the number, an integer without a point, or refuses |
| `Canonical.NumStrReadsBack` | ref/groundholdlib/canonical.py:30-63 | reading the text of an accepted number as a decimal gives the number |
| `Canonical.ReadsBackIffExact` | ref/groundholdlib/canonical.py:52-55 | a fixed-point text reads back as a number exactly when it writes that number without rounding |
| `Canonical.LeastPlacesIsLeast` | ref/groundholdlib/canonical.py:52-55 | no fixed-point text of up to 17 decimals that reads back as the number is shorter than the one found |
| `Canonical.NumStrInjective` | ref/groundholdlib/canonical.py:30-63 | two accepted numbers have one NUMSTR exactly when they are the same number, be they written as integers or not |
| `Canonical.QuoteText` | ref/groundholdlib/canonical.py:66-84 | the character loop builds the quoted and escaped text |
| `Canonical.StringRoundTrip` | ref/groundholdlib/canonical.py:66-84 | a quoted string, followed by anything, reads back as itself: control characters, quotes and backslashes included |
| `Canonical.CanonRoundTrip` | ref/groundholdlib/canonical.py:87-117 | for every tree the printer accepts, parsing the canonical text gives the tree with its numbers turned into their NUMSTR |
| `Canonical.CanonInjective` | ref/groundholdlib/canonical.py:87-117 | two accepted trees have equal canonical text if and only if they are equal up to number-to-NUMSTR |
| `Canonical.PrintOfNorm` | ref/groundholdlib/canonical.py:94-97 | the canonical text of a tree is that of its normal form: `5` and `"5"` print alike by design |
| `CanonicalText.ReadTextIsCanonical` | ref/groundholdlib/canonical.py:66-117 | a text that can be read back at all is the canonical text of what it reads as: keys in increasing order, a character's short escape where it has one, nothing between or after |
| `CanonicalText.QuotedTextIsUnique` | ref/groundholdlib/canonical.py:66-84 | a quoted text that reads as a string is that string as the printer quotes it |
| `CanonicalText.EscapesAreMinimal` | ref/groundholdlib/canonical.py:66-84 | exactly quotes, backslashes and control characters are escaped, by six characters only where there is no escape of two, and without upper-case letters |
| `CanonicalText.NumbersAreTidy` | ref/groundholdlib/canonical.py:46-63 | an accepted number is written without a leading zero, without a trailing one after its point, and never as minus zero |
| `CanonicalText.AcceptedNumbers` | ref/groundholdlib/canonical.py:36-63 | a number is accepted exactly when it is an integer below 2^53 in size, or some text with 1 to 17 decimals reads back as it |
| `Canonical.HashIdentity` | ref/groundholdlib/canonical.py:218-220 | two hashes agree if and only if domain and normal form agree, and no hash is `genesis` |
| `Canonical.DomainSplits` | ref/groundholdlib/canonical.py:219 | the newline after the domain splits the hashed text in one way only |
| `Canonical.EventIdentity` | ref/groundholdlib/canonical.py:231-239 | event hashes agree if and only if the documents without `sig` do, up to number-to-NUMSTR |
| `Scalars.IdentityAgreesWithEquality` | ref/groundholdlib/canonical.py:120-136 | two scalars with a canonical form share it if and only if they are canonically equal, through lists of any depth |
| `Scalars.NormModelIdentity` | ref/groundholdlib/canonical.py:120-136 | the same for the normal forms of the two models, kind by kind |
| `Scalars.ValueEqualReflexive` | ref/groundholdlib/scalars.py:130-138 | canonical equality is reflexive |
| `Scalars.ValueEqualSymmetric` | ref/groundholdlib/scalars.py:130-138 | canonical equality is symmetric |
| `Scalars.ValueEqualTransitive` | ref/groundholdlib/scalars.py:130-138 | canonical equality is transitive |
| `Scalars.OpEquals` | ref/groundholdlib/scalars.py:167-171 | `equals` computes the strong-Kleene specification, recursively through lists |
| `Scalars.ListEqual` | ref/groundholdlib/scalars.py:143-164 | the early-exit scan of two lists computes the conjunction of the positions, a length mismatch being definitely false |
| `Scalars.OpIn` | ref/groundholdlib/scalars.py:181-207 | the early-exit scan computes the disjunction of the comparisons; a list with nothing comparable is refused |
| `Scalars.OpSubsetOf` | ref/groundholdlib/scalars.py:209-227 | the early-exit scan computes the conjunction of the memberships |
| `Scalars.ConjunctionIsStrongKleene` | ref/groundholdlib/scalars.py:143-164 | a conjunction is definite exactly when every way of settling the refused positions gives that answer |
| `Scalars.DisjunctionIsStrongKleene` | ref/groundholdlib/scalars.py:181-207 | a disjunction is definite exactly when every way of settling the refused positions gives that answer |
| `Scalars.DefiniteEqualsIsValueEqual` | ref/groundholdlib/scalars.py:130-171 | `equals` is true if and only if the scalars are canonically equal |
| `Scalars.InIsMembership` | ref/groundholdlib/scalars.py:181-207 | `in` is true if and only if some element is canonically equal |
| `Scalars.InIgnoresOrder` | ref/groundholdlib/scalars.py:181-207 | `in` is unchanged by permuting or repeating the elements of the list |
| `Scalars.SubsetIsInclusion` | ref/groundholdlib/scalars.py:209-227 | `subset-of` is true if and only if every element has a canonical equal on the other side |
| `Scalars.SubsetIgnoresOrder` | ref/groundholdlib/scalars.py:209-227 | `subset-of` is unchanged by permuting or repeating the elements of either list |
| `Scalars.SubsetIsPreorder` | ref/groundholdlib/scalars.py:209-227 | true `subset-of` is reflexive and transitive |
| `Scalars.OrderingLaws` | ref/groundholdlib/scalars.py:173-179 | `lte` and `gte` are converses, definite exactly within an orderable kind and currency, total and transitive there, and both true exactly on equal values |
| `Scalars.CompatibilityLaws` | ref/groundholdlib/scalars.py:229-236 | `compatible-with` is a partial order; versions are incomparable exactly when protocol or major differ |
| `OperatorTheorems.OperatorsAnswerExactly` | ref/groundholdlib/scalars.py:130-245 | each operator answers true exactly when its comparison holds of the two values, false exactly when the opposite one does, and refuses otherwise; kinds and currencies that do not match are refused |
| `OperatorTheorems.EqualsIsFalseWhenDifferent` | ref/groundholdlib/scalars.py:143-171 | `equals` is false exactly on values that definitely differ, at some position of lists of one length |
| `OperatorTheorems.InIsFalseWhenAllDiffer` | ref/groundholdlib/scalars.py:181-207 | `in` is false exactly when there is something in the list and all of it definitely differs |
| `OperatorTheorems.OrderingsCompareMeasures` | ref/groundholdlib/scalars.py:124-179 | `lte` and `gte` compare what two values of one kind and currency measure, the bound included, and refuse everything else |
| `OperatorTheorems.CompatibleMeansNotOlder` | ref/groundholdlib/scalars.py:229-236 | `compatible-with` asks for the same protocol and major and a version that is not older |
| `LedgerTheorems.HashFixesHistory` | ref/groundholdlib/scenario.py:117-130 | events with one hash list the same capabilities and cite the same previous heads |
| `EventTheorems.HashFixesEvent` | ref/groundholdlib/scenario.py:117-130 | events with one hash agree on type, capabilities, actor, token, environment, time and previous heads, and on the body up to the way its numbers are written |
| `EventTheorems.TypeNamesDiffer` | ref/groundholdlib/scenario.py:117-118 | no two event types share a name |
| `LedgerTheorems.HeadsAreLatest` | ref/groundholdlib/scenario.py:152-159 | after any lawful log, a head is the hash of the newest event listing the capability and a decision head that of the newest decision, or genesis |
| `LedgerTheorems.PrevIsLatest` | ref/groundholdlib/scenario.py:124 | what an event cites as previous is the hash of the newest earlier event on that capability, or genesis |
| `LedgerTheorems.HashesDistinct` | ref/groundholdlib/scenario.py:152-159 | no two committed events of a lawful log have the same hash |
| `LedgerTheorems.NoHeadRecurs` | ref/groundholdlib/scenario.py:155-158 | a head or decision head has the same value at two points of a log if and only if no event moved it in between: no ABA |
| `LedgerTheorems.FreshIffLatest` | ref/groundholdlib/scenario.py:99-111 | a check against the hash of a committed event is fresh if and only if that event is the newest of its kind on the capability |
| `LedgerTheorems.ChainIsHistory` | ref/groundholdlib/scenario.py:124 | following `prev` from the head visits exactly the committed events listing the capability, newest first, and the last link it comes to is genesis |
| `LeaseTheorems.LeaseFromLog` | ref/groundholdlib/scenario.py:174-221 | the lease and the token counter of a capability are what its newest acquire, the renewals and the endings in the log say |
| `LeaseTheorems.SeqCountsAcquires` | ref/groundholdlib/scenario.py:184 | the lease sequence number counts the acquires in the log |
| `LeaseTheorems.MutationNeedsOneLease` | ref/groundholdlib/scenario.py:223-244 | a mutation passes the rules if and only if one committed acquire is the latest on every affected capability, was issued the given token, and none of them was released, broken or has run out since |
| `LeaseTheorems.MutationIsCovered` | ref/groundholdlib/scenario.py:223-244 | in a lawful log every mutation was covered under its token by one earlier acquire, at its own time and at every event since that acquire |
| `LeaseTheorems.TokensIncrease` | ref/groundholdlib/scenario.py:181-188 | tokens issued on a capability strictly increase |
| `LeaseTheorems.LeaseTokenIsMax` | ref/groundholdlib/scenario.py:181-188 | the token of a capability's lease equals its counter and is the largest ever issued on it |
| `LeaseTheorems.InactiveStays` | ref/groundholdlib/scenario.py:191-221 | a lease that is once inactive is inactive at every later point under the same sequence number, whatever renewals follow |
| `RuleTheorems.FaultFromLog` | ref/groundholdlib/scenario.py:165-268 | for each event type, the rules refuse nothing exactly when the log permits it: a positive ttl and no running lease for an acquire; the holder's token on every capability for a release or renewal; adoption or nothing pending for a break; one covering lease for the four mutations; a known operation and status for a receipt |
| `RuleTheorems.EventsArePermitted` | ref/groundholdlib/scenario.py:145-160 | so every event of a lawful log was permitted by the log before it, at its own time |
| `RuleTheorems.OnlyHoldersEndLeases` | ref/groundholdlib/scenario.py:191-196 | in a lawful log every release and renewal carries, on each capability it lists, the token of the newest acquire there, not ended since and not run out |
| `RuleTheorems.RefusalNamesFirst` | ref/groundholdlib/scenario.py:165-250 | a refusal names the first listed capability that is in the way, and what is the matter with it |
| `RuleTheorems.PendingFromLog` | ref/groundholdlib/scenario.py:246-268 | an operation is pending on a capability exactly when a receipt opened it there and no receipt concluded it and no break adopted it since |
| `RuleTheorems.TokenIsNext` | ref/groundholdlib/scenario.py:181-188 | a lease's token is one more than the largest issued before on any capability it lists, or 1 |
| `RuleTheorems.DecisionsMoveHead` | ref/groundholdlib/scenario.py:30-36 | the decision head of a capability is moved by seven event types, named one by one, and by no other |
| `ScenarioEngine.Engine.constructor` | ref/groundholdlib/scenario.py:72-82 | an engine starts as the replay of the empty log |
| `ScenarioEngine.Engine.DoTick` | ref/groundholdlib/scenario.py:88-97 | the clock moves forward by a positive amount or the step is an authoring error |
| `ScenarioEngine.Engine.DoCheck` | ref/groundholdlib/scenario.py:99-111 | a check is an error exactly when it refers to a step without an event, and otherwise fresh exactly when every head names the newest event on its capability |
| `ScenarioEngine.RefAgrees` | ref/groundholdlib/scenario.py:46-55 | a reference to a step matches a head if and only if that step's event is the newest on the capability |
| `ScenarioEngine.CasAgrees` | ref/groundholdlib/scenario.py:134-143 | comparing hashes capability by capability gives what the log says of the named events |
| `ScenarioEngine.Engine.CheckRules` | ref/groundholdlib/scenario.py:165-268 | the scans return the first fault the rules name, or none |
| `ScenarioEngine.Engine.CheckHeld` | ref/groundholdlib/scenario.py:191-196 | the scan finds the first capability not held by an active lease with the token |
| `ScenarioEngine.Engine.CheckMutation` | ref/groundholdlib/scenario.py:223-244 | the scan finds the first capability not held, or held under another lease |
| `ScenarioEngine.Engine.CommitRules` | ref/groundholdlib/scenario.py:183-264 | the in-place updates leave leases, counters and pending sets as one commit does, capability by capability, repeated capabilities included |
| `ScenarioEngine.Engine.CommitPending` | ref/groundholdlib/scenario.py:246-264 | a receipt adds or discards one operation; an adoption clears the set |
| `ScenarioEngine.Engine.CommitOne` | ref/groundholdlib/scenario.py:183-221 | one capability's share of a commit, which is idempotent |
| `ScenarioEngine.Engine.MoveHeads` | ref/groundholdlib/scenario.py:155-158 | the head, and for a decision the decision head, of each listed capability moves to the new hash |
| `ScenarioEngine.Engine.DoAppend` | ref/groundholdlib/scenario.py:113-160 | an append is malformed, conflicts, is rejected or is committed, in that order and as the log decides; a commit extends the log by exactly that event, anything else changes nothing, and the maps stay the replay of the log |
| `ScenarioEngine.Engine.DoCommit` | ref/groundholdlib/scenario.py:152-160 | committing a legal event keeps every map equal to the replay of the log |
| `ScenarioEngine.Engine.DoStep` | ref/groundholdlib/scenario.py:84-160 | a step's answer is a function of the clock and the log, and it leaves exactly the specified clock, log and record of its event |
| `ScenarioEngine.RunScenario` | ref/groundholdlib/scenario.py:62-162 | a run stops at the first step that raises; each result is the answer on the log its predecessors left, and the final clock and log are those of the steps played |
| `ScenarioTheorems.LogIsTheScenario` | ref/groundholdlib/scenario.py:84-160 | the committed events and the committing steps correspond one to one and in order, each event being the one its step asked for, with the heads of the log before it and the sum of the ticks before it |
| `ScenarioTheorems.PlayIsLawful` | ref/groundholdlib/scenario.py:62-162 | the log of any scenario is lawful and no event is ahead of the clock |
| `ScenarioTheorems.ConflictIffMoved` | ref/groundholdlib/scenario.py:134-143 | a well-formed append whose references resolve conflicts if and only if some expected head is not the newest event on its capability |
| `ScenarioTheorems.ChecksReadTheirHeads` | ref/groundholdlib/scenario.py:99-111 | a check of heads reads the newest events and a check of decision heads the newest decisions |
| `ScenarioTheorems.FirstDifferenceDecides` | ref/groundholdlib/scenario.py:134-143 | the first listed capability whose expected head does not resolve, or is not the newest event, decides between raising and conflict |
| `ScenarioTheorems.ExpectingNothing` | ref/groundholdlib/scenario.py:134-143 | a capability left out of the expected heads stands for genesis: an append that expects nothing conflicts exactly when one of its capabilities already has an event |
| `ScenarioTheorems.GrantIsIssued` | ref/groundholdlib/scenario.py:181-189 | the token a step is granted is the one the log issues at its event |
| `ScenarioTheorems.MalformedRaises` | ref/groundholdlib/scenario.py:128-130 | an append without capabilities or actor, or with a token below 1, raises whatever else it asks for |
| `ScenarioTheorems.RefusedForItsFault` | ref/groundholdlib/scenario.py:145-160 | an append whose expected heads are current is rejected exactly for the fault the rules find, and otherwise granted or done |
| `Graph.Dependents` | ref/groundholdlib/plan.py:268-271 | the reverse table lists a dependent once for every occurrence of the dependency |
| `Graph.Lower` | ref/groundholdlib/plan.py:275-278 | lowering one popped id keeps every degree the number of dependencies not yet popped |
| `Graph.Kahn` | ref/groundholdlib/plan.py:259-280 | the check accepts if and only if the graph has no cycle; repeated edges and self-loops included |
| `Graph.CheckGraph` | ref/groundholdlib/plan.py:254-280 | the reference check and the cycle check, each refusing exactly what it names: an id that occurs twice, or a dependency that some action has and no action is |
| `Graph.OrderedIsAcyclic` | ref/groundholdlib/plan.py:279-280 | a complete dependency order rules out every cycle |
| `Graph.StuckIsCyclic` | ref/groundholdlib/plan.py:279-280 | a nonempty set in which everything waits on the set contains a cycle |
| `Graph.TopoOrder` | go/internal/apply/apply.go:1650-1676 | on unique ids, known dependencies and no cycle the nested loops end with a permutation of the ids in which each dependency precedes its dependents |
| `Graph.PassProgresses` | go/internal/apply/apply.go:1653-1674 | every pass over an incomplete order places at least one more action |
| `Graph.TopoOrderEndsIffAcyclic` | go/internal/apply/apply.go:1650-1676 | the passes ever place every action if and only if there is no cycle |
| `Plan.EnforceReplaceOrdering` | go/internal/apply/apply.go:1584-1616 | the two loops add, in place, exactly the missing create-before-delete edges and change nothing else |
| `Plan.EdgeIsThere` | go/internal/apply/apply.go:1596-1616 | after the injection every delete of a capability the plan creates depends on that create |
| `Plan.EdgeToLastCreate` | go/internal/apply/apply.go:1584-1616 | a delete gets the one edge to the last create of its capability, unless it is there already; nothing else is touched |
| `Plan.EnforcedKeeps` | go/internal/apply/apply.go:1596-1616 | no dependency is lost and no other field changes |
| `Plan.ReplacedIdByCap` | go/internal/apply/apply.go:1624-1648 | the two loops map a capability with both a create and a delete to the last pinned target |
| `Plan.InjectionCanMakeCycle` | go/internal/apply/apply.go:858-880 | a plan the loader accepts whose create waits for its own paired delete cannot be ordered after the injection |
| `ReplaceCycles.EnforcedEdges` | go/internal/apply/apply.go:1584-1616 | the injected plan has the loaded plan's edges and the delete-to-create edges, no others |
| `ReplaceCycles.CyclicIffRing` | go/internal/apply/apply.go:1584-1616 | the injected edges close a cycle if and only if there is a ring of replacements, each create depending on the next delete |
| `ReplaceCycles.OrderableExactlyWhen` | go/internal/apply/apply.go:867-880 | a plan the loader accepted can be ordered after the injection if and only if no replacements wait for each other's deletes in a ring |
| `Executor.ApplyRun.constructor` | go/internal/apply/apply.go:898-902 | the loop starts with no outcome and the class succeeded |
| `Executor.ApplyRun.FirstFailed` | go/internal/apply/apply.go:905-913 | a dependency that did not succeed is found if there is one; a missing outcome reads as success |
| `Executor.ApplyRun.Record` | go/internal/apply/apply.go:916-926 | the worst class is kept with the code of the first action at that class |
| `Executor.ApplyRun.Perform` | go/internal/apply/apply.go:996-1349 | intent, driver call, then either the terminal receipt or the binding or ownership event before it |
| `Executor.ApplyRun.DoAction` | go/internal/apply/apply.go:929-990 | one turn of the loop: skipped, refused before the intent, or performed |
| `Executor.ApplyRun.Execute` | go/internal/apply/apply.go:831-1388 | the whole run is the specified fold over the actions, closed by one marker and one release |
| `ExecutorTheorems.OrderIsSchedule` | go/internal/apply/apply.go:879-930 | looking up the ids of any valid order schedules every action once, after all it depends on |
| `ExecutorTheorems.BlockedStep` | go/internal/apply/apply.go:905-913 | an action is transitively blocked if and only if one of its own dependencies fails or is blocked |
| `ExecutorTheorems.FailIsolation` | go/internal/apply/apply.go:929-945 | for any driver, when no transitive dependency fails the action ends as its own fate says and its call is made once, right after its own intent; otherwise it is skipped and no call is made |
| `ExecutorTheorems.IntentMeansCall` | go/internal/apply/apply.go:929-1027 | with distinct keys an action's intent is always followed by its one call, so a blocked action writes none |
| `ExecutorTheorems.OutcomeIgnoresOrder` | go/internal/apply/apply.go:902-945 | the outcome map is the same for every valid topological order |
| `ExecutorTheorems.FailedRunHasCause` | go/internal/apply/apply.go:1353-1387 | exit 4 happens exactly when some action did not succeed, with the non-empty code of the first really failed, throttled or unknown action at the worst class; the marker that says so comes once, right before the release |
| `ReceiptTheorems.ClassOfResponse` | go/internal/apply/apply.go:1098-1232 | what an attempted action amounts to, in terms of the driver's own response: the adoption of the guarded id fails, unusable outputs and unknown responses are unknown, or throttled if retryable |
| `ReceiptTheorems.CodeOfResponse` | go/internal/apply/apply.go:1211-1232 | the code of each class, and of a refusal before the intent |
| `ReceiptTheorems.WorstOutranks` | go/internal/apply/apply.go:1456-1467 | a run's worst class is unknown if any outcome is, else failed, else throttled, else succeeded |
| `ReceiptTheorems.OneReceiptTells` | go/internal/apply/apply.go:996-1251 | with distinct keys an attempted action's intent has exactly one terminal receipt, after its call and the record of a success; its status is `retryable` if the driver marked the call so, else `succeeded`, `unknown` or `failed` exactly as the action ended; an action not attempted has none |
| `ReceiptTheorems.LogTellsOutcome` | go/internal/apply/apply.go:1159-1251 | the same of the ledger's log after a whole run |
| `ReceiptTheorems.RunEnvelope` | go/internal/apply/apply.go:831-1388 | the log of a run begins with a lease for 300 seconds and the start of this plan, ends with the marker of its outcome, exit code 4 for a failure, and the release, and every event of it carries the run's id, actor and time, and its token except on the lease and the receipts |
| `ReceiptTheorems.ClaimInLog` | go/internal/apply/apply.go:1234-1251 | a claim is an ownership event in the log, with the id claimed |
| `ProjectionTheorems.RunKeepsHistory` | go/internal/apply/apply.go:1254-1342 | tombstones and replaced ids end as they were, followed by those of the successful deletes, creates and updates in the order of the schedule, field by field |
| `ProjectionTheorems.GenerationWritten` | go/internal/apply/apply.go:1254-1322 | a successful create or update binds the id the driver returned, at the plan's generation, or one more than the one bound before, or the first |
| `ProjectionTheorems.DeleteSparesSuccessor` | go/internal/apply/apply.go:1290-1315 | a successful delete clears the binding exactly when nothing else than the pinned id is bound; a successor survives, and stays reported |
| `ProjectionTheorems.RunReportsBound` | go/internal/apply/apply.go:1308-1334 | at every point of a run an unclaimed capability is reported as what it is bound to, or not at all |
| `ProjectionTheorems.SuccessIsReported` | go/internal/apply/apply.go:1234-1334 | a successful create or update reports the returned id, and a claim the one bound before the run |
| `ReplaceTheorems.EnforcedIsReplacement` | go/internal/apply/apply.go:858-867 | where a plan creates a capability once and otherwise only claims it and deletes on it, the injected edges make every delete wait for the create whatever edges the plan declared |
| `ReplaceTheorems.CreateBeforeDestroy` | go/internal/apply/apply.go:905-945 | wherever the call of an action that waits for a create stands in the trace, a delete above all, the create succeeded and its binding was appended before |
| `ReplaceTheorems.CapabilityEnds` | go/internal/apply/apply.go:1254-1349 | when everything on a capability succeeds, whatever creates, updates, claims and deletes those are, every deleted id is in the tombstones, and what is bound is what the last create or update came back with, unless a delete after it had that very id, or there was one and it came back with none |
| `ReplaceTheorems.ReplacementEnds` | go/internal/apply/apply.go:1254-1349 | when everything on a replacement's capability succeeds, claims included, every deleted id is in the tombstones, and the capability is bound to the create's id unless a delete came with that very id, or there was a delete and the create returned no id |
| `ReplaceTheorems.BackstopHolds` | go/internal/apply/apply.go:1098-1121 | a create never succeeds with the id it is held to replace |
| `ReplaceTheorems.SinglePinAgrees` | go/internal/apply/apply.go:1107-1114 | a single delete pins the guarded id if and only if `replaces` is absent or names its pin |
| `ReplaceTheorems.ReplacementEndsBound` | go/internal/apply/apply.go:1098-1342 | where every delete beside the create, claims aside, pins the guarded id, a replacement whose create returned an id ends bound to it, with every deleted id in its tombstones |
| `ReplaceTheorems.DisagreeingReplacesEndsUnbound` | go/internal/apply/apply.go:1107-1114 | a `replaces` that names another id than the delete pins lets the run succeed with nothing bound |
| `ReplaceTheorems.TwoDeletesEndUnbound` | go/internal/apply/apply.go:1624-1648 | without `replaces`, a second delete of the capability takes the guard from the first, and the run succeeds with nothing bound |
| `ReplaceTheorems.UpdateEndsUnbound` | go/internal/apply/apply.go:1098-1121 | the backstop looks at creates alone: an update before the delete can come back with the very id the delete pins, and the run succeeds with nothing bound |
| `ReplaceTheorems.GuardedEndsBound` | go/internal/apply/apply.go:1098-1342 | where each pinned delete scheduled after a capability's last create or update follows a create and pins the id the backstop guards, what that action came back with is bound at the end |
| `ReplaceTheorems.KeepsSomethingExactlyWhen` | go/internal/apply/apply.go:1098-1121 | whatever actions a capability has, every driver under which they succeed leaves it bound to something if and only if no pinned delete is scheduled after its last create or update, or that is a create and they all pin the id the backstop guards for it |
| `ReplaceTheorems.ReplacementKeepsExactlyWhen` | go/internal/apply/apply.go:1098-1121 | for a replacement, claims aside, that is a condition on the plan: every delete beside the create pins the guarded id, its `replaces` or else the last pinned target |
| `Protocol.FeedPending` | ref/groundholdlib/scenario.py:246-264 | the ledger's pending sets after a run's appends are what its receipts leave |
| `CrashTheorems.EveryPrefixIsRecoverable` | go/internal/apply/apply.go:996-1251 | at every prefix of a run's items each called action is pending, recorded right after its own intent and call, failed or throttled; a created resource is pending or bound |
| `CrashTheorems.CompleteRunPending` | go/internal/apply/apply.go:1159-1232 | a complete run leaves pending exactly the intents of the actions whose outcome is unknown |
| `RunTheorems.RunIsAccepted` | go/internal/apply/apply.go:831-856 | every append of an uncontended run is accepted by the ledger, wherever it is cut off, and a complete run leaves no active lease |
| `RunTheorems.LeaseIsReleased` | go/internal/apply/apply.go:1359-1375 | the release of a held lease is accepted and ends it on every written capability |
| `RunTheorems.SmallGenerationsFit` | go/internal/apply/apply.go:1254-1342 | every body a run appends has a canonical form when the generations stay clear of the largest safe integer by the number of actions |
| `RunTheorems.RunEndsPendingUnknown` | go/internal/apply/apply.go:1159-1232 | in the ledger, exactly the intents of unknown outcomes remain pending after a run |
| `RunTheorems.FeedPlaces` | go/internal/apply/apply.go:996-1027 | each append of a run lands in the log right after the appends before it |
| `RunTheorems.CrashConsistency` | go/internal/apply/apply.go:996-1349 | cut off after any append or call, the log is lawful, and a called action is pending in it, or its own binding or ownership event follows its own pending receipt in it, or the call returned failed or throttled; a created resource is never both cleared and unbound |
| `BindingTheorems.RunBinds` | go/internal/apply/apply.go:1254-1342 | at every point of a run its variable holds the last binding its items wrote |
| `BindingTheorems.LogCarriesBindings` | go/internal/apply/apply.go:1254-1342 | after a whole run the newest binding.updated on a capability carries the body of the binding the run ends with, or neither has changed |
| `BindingTheorems.ReplacementInLog` | go/internal/apply/apply.go:1098-1342 | in the ledger, a successful replacement with agreeing pins leaves the capability newly bound to the create's id with every deleted id in its tombstones |
| `ContentionTheorems.WeaveIsHeld` | ref/groundholdlib/scenario.py:174-244 | the run's lease is held through any lawful events of others that end or renew no lease on what it writes |
| `ContentionTheorems.ContendedRunIsAccepted` | go/internal/apply/apply.go:831-1388 | every append of a run is accepted whatever such events come between its items, wherever it is cut off |
| `ContentionTheorems.WeavePending` | ref/groundholdlib/scenario.py:246-264 | whether one of the run's operations is pending is decided by the run's own receipts as long as others do not name it |
| `ContentionTheorems.ContendedCrashConsistency` | go/internal/apply/apply.go:996-1349 | cut off anywhere among other writers, a called action is pending in the ledger, or its own event follows its own receipt with nothing of the run but the call in between, or the call returned failed or throttled; a created resource is never both cleared and unbound |
| `ContentionTheorems.ContendedRunEndsPendingUnknown` | go/internal/apply/apply.go:1159-1232 | among such writers too, of the run's own operations exactly those of unknown outcome are pending after it |
| `ContentionTheorems.ContendedLogCarriesBindings` | go/internal/apply/apply.go:1254-1342 | where others do not rebind a capability, its newest binding.updated after a whole run carries the body of the binding the run ends with, or neither has changed |
| `ContentionTheorems.ContendedReplacementInLog` | go/internal/apply/apply.go:1098-1342 | so a successful replacement with agreeing pins is newly bound in the ledger to the create's id, others or not |
| `ApplyGate.StaleReason` | go/internal/apply/apply.go:1468-1482 | a moved pin is reported if and only if some pinned decision head is not the current one, in any map order |
| `ApplyGate.RunApply` | go/internal/apply/apply.go:659-1388 | the pending check, the two staleness checks and the lease in their order, then the run |
| `ApplyGate.ExecutePlan` | go/internal/apply/apply.go:858-930 | from a loaded plan without such a ring: the edges are injected in place, and the run is the specified one for some schedule of the actions as they then stand |
| `ApplyGate.PinsNeverReturn` | go/internal/apply/apply.go:668-673 | once `apply.started` on the write set follows a point where the pins held, they hold on no extension of that log |
| `ApplyGate.StartIsCommitted` | go/internal/apply/apply.go:853-856 | a run of at least two items has `apply.started` on the write set right after its lease |
| `ApplyGate.StartedPlanIsRefused` | go/internal/apply/apply.go:668-856 | whoever wrote in between, a plan whose start marker follows a point where its pins held is refused by every later call before any driver call |
| `ApplyGate.AtMostOnce` | go/internal/apply/apply.go:668-856 | after a run of a plan committed its start, every later call of the plan on any extension is refused before any driver call |
| `ApplyGate.LeaseKeepsPins` | go/internal/apply/apply.go:846-852 | taking the lease moves no decision head |
| `RefusalTheorems.RunsExactlyWhenClear` | go/internal/apply/apply.go:659-856 | a call runs the plan exactly when nothing is pending on what it writes, no lease runs there and every pin is the newest decision, in the log it opened and in the one it leased; otherwise it makes no driver call and its refusal names the first of these that fails |
| `RefusalTheorems.CallsOnlyWhenClear` | go/internal/apply/apply.go:659-856 | a call that reaches the driver found no pending operation, no active lease and every pin current in both tables |
| `RefusalTheorems.UnknownIsReconciledFirst` | go/internal/apply/apply.go:659-665 | after a run with an unknown outcome, every later call that writes the capability is refused with reconcile-first until the ledger concludes or adopts that operation |
| `EditDistance.EditDistance` | ref/groundholdlib/contract.py:29-39 | the two-row loop returns the last entry of the full table |
| `EditDistance.DistanceIsOptimal` | ref/groundholdlib/contract.py:29-39 | that entry is the length of a shortest insert, delete and substitute script from one string to the other |
| `EditDistance.ZeroIffEqual` | ref/groundholdlib/contract.py:29-39 | the distance is zero if and only if the strings are equal |
| `EditDistance.Symmetric` | ref/groundholdlib/contract.py:29-39 | the distance is symmetric |
| `EditDistance.Triangle` | ref/groundholdlib/contract.py:29-39 | the distance satisfies the triangle inequality |
| `EditDistance.NearestTypes` | ref/groundholdlib/contract.py:42-43 | the suggestions are the n least (distance, name) pairs, in order |
| `Sorting.SortSorts` | ref/groundholdlib/contract.py:43 | the stable sort is a sorted permutation of its input |
| `Sorting.SortedIsUnique` | ref/groundholdlib/contract.py:724-733 | a list without ties has only one sorted arrangement |
| `Verify.SortScalarList` | ref/groundholdlib/contract.py:720-733 | the list is rearranged in place into its stable order by spelling, and the list of spellings beside it follows when it is as long |
| `Verify.SetCanonical` | ref/groundholdlib/verify.py:115-146 | the operand of a set attribute is sorted in a copy, and everything else left alone |
| `Verify.FindBindingErrors` | ref/groundholdlib/verify.py:169-182 | exactly the capabilities neither retired nor implemented, and a wrong contract, are reported |
| `Verify.VerifyCandidate` | ref/groundholdlib/verify.py:104-209 | one verdict per constraint in order; executable if and only if nothing is missing and every hard constraint is satisfied, unknown and unverifiable blocking like violated |
| `VerdictTheorems.OnlyStaticIsSettled` | ref/groundholdlib/verify.py:59-62 | a constraint that has to be verified by other means than the candidate's word is unknown |
| `VerdictTheorems.UnprovenBlocks` | ref/groundholdlib/verify.py:59-62 | so no candidate is executable against a contract with such a hard constraint |
| `VerdictTheorems.UnimplementedIsUnknown` | ref/groundholdlib/verify.py:64-67 | nothing about a capability the candidate does not implement is settled |
| `VerdictTheorems.PresenceIsDeclared` | ref/groundholdlib/verify.py:69-76 | `exists` and `absent` ask whether the attribute is declared |
| `VerdictTheorems.ComparisonNeedsValue` | ref/groundholdlib/verify.py:77-85 | a comparison is settled only by a value the candidate gives and does not mark unknown |
| `VerdictTheorems.ComparisonSaysWhatItMeans` | ref/groundholdlib/verify.py:87-101 | on such a value a comparison is satisfied exactly when it holds, violated exactly when its opposite does, and unverifiable where the values cannot be compared; lists of an attribute marked as a set are compared in the order of their spellings |
| `VerdictTheorems.ObjectivesAreScored` | ref/groundholdlib/verify.py:45-57 | an objective is satisfied on any value given, and otherwise unknown |
| `Verify.OppositesFlip` | ref/groundholdlib/verify.py:69-101 | `equals`/`not-equals`, `in`/`not-in` and `exists`/`absent` give complementary verdicts, with unknown and unverifiable fixed |
| `Verify.ContradictionIsNeverExecutable` | ref/groundholdlib/verify.py:157-184 | no candidate is executable against a contract that holds both as hard |
| `Verify.OrderIsIgnoredExactlyWhen` | ref/groundholdlib/contract.py:720-733 | the order a set was written in is forgotten if and only if no two different elements are spelled alike |
| `Verify.OrderIsRemembered` | ref/groundholdlib/contract.py:729 | a number and a string of the same digits keep the order they were written in |
| `Verify.SortIsStable` | ref/groundholdlib/contract.py:729 | elements spelled alike keep their order |
| `Verify.TrueSetEqualsIsSameSet` | ref/groundholdlib/verify.py:115-146 | `equals` on sets is never wrongly true |
| `Verify.SetEqualsIsSameSet` | ref/groundholdlib/verify.py:115-146 | where spelling is canonical, `equals` on sets is set equality with multiplicity and never undecided |
| `Verify.SetEqualsDecidesExactlyWhen` | ref/groundholdlib/contract.py:720-733 | among given elements, `equals` on every two sets is set equality if and only if all spellings of an element sort to the same side of every element that is not its equal, and tie with none |
| `Verify.StringSetEquals` | ref/groundholdlib/verify.py:115-146 | on lists of strings it is equality of the two multisets |
| `Verify.SetVerdict` | ref/groundholdlib/verify.py:115-155 | for an unordered attribute holding strings the verdict of `equals` and `not-equals` depends only on the two multisets |
| `Verify.RespelledSetDiffers` | ref/groundholdlib/contract.py:724-733 | two spellings of one set of durations sort differently and are told apart |
| `Audit.LatestSufficient` | go/internal/audit/audit.go:300-333 | for any order of the map the loop chooses a justified record or names exactly why there is none |
| `Audit.EveryOrderIsJustified` | go/internal/audit/audit.go:300-333 | in every order: no records, too weak evidence and only future records are told apart exactly, and what is found is sufficient, not from the future and, where sufficient records have readable times, the latest such record |
| `Audit.OrderIsIrrelevantExactlyWhen` | go/internal/audit/audit.go:308-319 | every order chooses alike if and only if there is nothing to choose from or one record replaces every different one |
| `Audit.DatedOrderIsIrrelevantExactlyWhen` | go/internal/audit/audit.go:308-319 | where sufficient records have readable times, that is so if and only if the records tied for the latest time are one and the same |
| `Audit.UnreadableTimeDependsOnOrder` | go/internal/audit/audit.go:335-342 | a time that cannot be read between two that can makes three records each replace the next, and the choice depends on the order of the map |
| `Audit.DistinctTimesAgree` | go/internal/audit/audit.go:308-319 | distinct times of sufficient records suffice for that |
| `Audit.EqualTimesDependOnOrder` | go/internal/audit/audit.go:335-342 | two sources that disagree about one second are chosen between by the order of the map |
| `Audit.JudgeOne` | go/internal/audit/audit.go:108-178 | a verdict is the judgement on what some order of the sources selects under the enforced bar |
| `Audit.SecurityNeedsWitness` | go/internal/audit/audit.go:108-178 | a hard constraint on a security path is decided only by a fresh, non-future probe or provider-api record that is neither config-intent nor platform-invariant |
| `Audit.AuditCode` | go/internal/audit/audit.go:237-251 | missing evidence is named if any hard finding is undecided, and no code exactly when none fails |
| `Audit.Run` | go/internal/audit/audit.go:53-215 | one finding per covered constraint in id order; no violations exactly when every hard one is satisfied |
| `Audit.CleanAuditIsWitnessed` | go/internal/audit/audit.go:67-214 | an audit without violations saw every hard constraint satisfied, and every hard one on a security path by a witness |
| `EvidenceTheorems.VerdictFollowsEvidence` | go/internal/audit/audit.go:108-178 | every verdict is what an admissible record says, the latest where times can be read; without one it is unverifiable if only future readings clear the bar and unknown if nothing does |
| `EvidenceTheorems.DecidedOnFreshEvidence` | go/internal/audit/audit.go:130-136 | any decided verdict rests on a record that clears the bar, was read no later than the audit, and no more than its ttl before it |
| `EvidenceTheorems.StaleEvidenceIsUnknown` | go/internal/audit/audit.go:130-136 | where all admissible evidence is older than its ttl the verdict is unknown |
| `EvidenceTheorems.BarIsEnforced` | go/internal/audit/audit.go:108-113 | a record meets the bar exactly when it is a probe, or a provider reading where no probe is demanded, and not declared intent or a platform guarantee; no bar holds where neither the constraint nor the security floor sets one |
| `EvidenceTheorems.ControlsAreSecurityPaths` | go/internal/audit/audit.go:490-499 | a path is a security control exactly when it continues one of the namespaces at its end, at a dot, or after a trailing one |
| `EvidenceTheorems.ReportIsInOrder` | go/internal/audit/audit.go:62-83 | a report has each constraint that is no objective as often as the contract has it, in the order of the ids |

## Left out

- Binary floating point: reals are exact, so a number is accepted where its decimal text is exact rather than where it
  reads back after rounding; NaN and infinities do not exist here.
- Canonical.Digest: SHA-256 is an injective function, so collisions and the hexadecimal text are not modelled.
- Calendar rendering of times: an event's `occurredAt` is the decimal text of the clock, which is as injective as a date.
- Scalar.parse: scalars are taken as parsed, with the printed spelling they came from; the regular expressions are not
  modelled, and a parsed list does not keep the list of its spellings (`SortScalarList` has it beside the elements).
- Contract and candidate identity: the normalisation in `contract_model` and `candidate_model`.
- YAML resolution, key whitelists and the shape checks of contracts, candidates, plans and events.
- Engine steps: operation ids that are not strings, and a renewal whose `ttlSeconds` is not an integer (which keeps the
  previous ttl here).
- ScenarioEngine.Engine.DoAppend: an event without a canonical form is refused before anything is committed, as
  `ledger.go` does; the reference commits the rules first and then raises, which ends its run.
- Reason texts, and the informational fields of receipts and bindings (targets, generations in receipts, provider names,
  declared outputs, empty lineages).
- Executor.ApplyRun.Execute: references between actions and folded operands only appear as a refusal before the intent;
  a failing append, which ends the source's run as corrupted, is a crash at that point.
- RunTheorems.RunIsAccepted: the run's appends are contiguous here; `ContentionTheorems` lets other writers in between,
  but none that breaks, releases or renews a lease on what the run writes, names one of its operations, or writes a time
  ahead of the run's.
- ContentionTheorems.ContendedCrashConsistency: after another writer's binding.updated under the run's own token, the
  source projects the next binding from that event, while a run here goes on from its own variable; the theorems about
  bindings exclude such events (`LeavesBinding`).
- Preflight refusals before the lease other than pending operations and stale pins, permission checks, the progress
  stream, retry delays and vocabulary drift.
- Audit.Run: the violation events it may record, and the order of findings whose constraints share an id.
- Verify.VerifyCandidate: provenance, confidence, vocabulary flags and the summary counts of the report.
- Wall-clock time, files, the network and the drivers themselves.
