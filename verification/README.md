# container-init and dev-env: a verified model

`container-init` bootstraps a container from declarative profiles; `dev-env`
materialises environments from layered configuration. This project models the parts
of both whose behaviour is decided by their own code and proves what that code keeps
over every input, every run or every reachable state:

- the shared condition grammar, path templates, and the evaluator of conditions;
- the check that startup actions do not depend on request data, as a static analysis
  whose soundness is a non-interference theorem;
- the planner (implicit edges, phases, priority-queue topological sort) and the
  executor with its failure policies;
- the strict merge of configuration trees under trust rules and overrides, and the
  accumulator that merges bootstrap profiles;
- the cache of the materialisation service;
- the prepare, commit and release protocol between client, server and helper process;
- reconciliation of the account files, namespace id maps and mountinfo escapes.

`dafny verify dfyconfig.toml` checks everything.

## Layout

| files | what they hold |
|---|---|
| Prelude, TextScan, TextOrder, TextLines | option and result types; trimming, splitting, numbers, order and lines as Rust's `str` has them |
| ConditionExpr, ConditionExprTheorems, ConditionPrinter, ConditionPrecedence | the condition grammar, its bracket errors, and the two printers it is inverse to |
| ConditionText, RenderedText, ResolvedInputs | the condition language read back from its text; rendering over template text; resolved inputs name by name |
| PathTemplates, Conditions, RuntimeInvariance, RuntimeExactness | templates, evaluation, the runtime-invariance check, its soundness and how exact it is |
| Actions, Inputs, PlanOrder, Planner, BootstrapPlan, Executor | actions and inputs, greedy orders over graphs, planning, execution |
| PlanDependencies, IdentityUse, RunOutcomes | what a plan depends on, who it depends on, and what a run records, said without the definitions the planner and executor use |
| ConfigTree, ProviderRule, ConfigMerge | trees with paths and the extension order; which providers may be addressed; the merger as an object |
| BootstrapMerge | the bootstrap accumulator |
| MaterializationCache | the cache |
| HandoffTrace, HandoffClient, HandoffRuns | the client automaton and its monitor; the client procedures; client and helper interleaved |
| RawText, PasswdFile, GroupFile, AccountText, Accounts | the account files, by lines and down to line endings |
| Namespaces, MountInfo | id maps and escaped paths |

Code that updates state is modelled by methods and classes proved against
specification functions; what the system promises is then proved about those
functions. Where the code iterates over an ordered map or set and the order only
selects which error comes first, the model iterates in an arbitrary order.

Three places where the code does less than one expects, modelled as the code has
them, each with its exact condition. A client that waits for the command to end takes a
closed control socket for a start, also when the helper died before exec
(`HandoffRuns.RunningMeansExecIff`). Group reconciliation is not idempotent: a group it
appends has no members (crates/container-init-posix/src/accounts.rs:297), so the user
enters it only in the next run (`GroupFile.OneApplicationSufficesIff`). And a rewrite of
an account file does not leave the rest of it intact byte for byte, as
crates/container-init-posix/src/accounts.rs:294-295 says: `str::lines` drops the carriage
return of every CRLF line, of records as well as comments, and it is not written again
(`AccountText.PasswdTextIsKeptIff`, `AccountText.GroupTextIsKeptIff`).

## Model

| member | source | states |
|---|---|---|
| ConditionExpr.ScanTopLevel | crates/condition-expr/src/lib.rs:170-206 | the cursor loop with depth and quote tracking cuts the text at exactly the top-level operators and ends with the verdict of a character-by-character automaton, although it jumps over whole operators |
| ConditionExpr.StripOuterParentheses | crates/condition-expr/src/lib.rs:91-123 | the loop removes outer parentheses exactly while the first one closes at the last character, as the recursive definition does |
| ConditionExpr.SplitTopLevel | crates/condition-expr/src/lib.rs:125-142 | the pieces are those of the definition, trimmed; an empty piece or an unbalanced text is the reported error |
| ConditionExpr.PiecesAreShorter | crates/condition-expr/src/lib.rs:54-142 | every piece of a real cut is shorter than the text, so every recursive call of the parser gets a shorter one |
| ConditionExprTheorems.PiecesAreBalanced | crates/condition-expr/src/lib.rs:125-142 | cutting a balanced text at its top-level operators leaves balanced pieces |
| ConditionExprTheorems.StripKeepsVerdict | crates/condition-expr/src/lib.rs:91-123 | stripping outer parentheses changes neither balance nor the open quote |
| ConditionExprTheorems.BracketErrorsAreDecidedOnce | crates/condition-expr/src/lib.rs:54-206 | unbalanced parentheses or an unterminated string are reported if and only if the whole non-blank input is unbalanced; no recursive call on a split, stripped or negated piece raises either error |
| ConditionPrinter.ParseUndoesPrint | crates/condition-expr/src/lib.rs:54-206 | parsing the parenthesised printing of any tree with trimmed, balanced, operator-free leaves and lists of at least two children returns that tree |
| ConditionPrecedence.ParseUndoesPlain | crates/condition-expr/src/lib.rs:54-89 | parsing undoes a second printer that parenthesises only where precedence asks for it: `||` binds weakest, then `&&`, then `!`, which holds a whole comparison; for every printable tree |
| ConditionPrecedence.RightConjunctionBindsTighter | crates/condition-expr/src/lib.rs:60-77 | three atoms `a || b && c` are the disjunction of `a` and the conjunction of the other two |
| ConditionPrecedence.LeftConjunctionBindsTighter | crates/condition-expr/src/lib.rs:60-77 | three atoms `a && b || c` are the disjunction of the conjunction and `c` |
| ConditionPrecedence.PiecesOfWoven | crates/condition-expr/src/lib.rs:125-142 | cutting texts woven with an operator at that operator, and trimming, gives the texts back |
| ConditionText.ConditionIsReadBack | crates/container-init-bootstrap-model/src/condition.rs:211-342 | writing any expressible condition, with atoms, calls, quoted literals, references and as few parentheses as precedence allows, and reading the text gives the condition back |
| ConditionText.OperandIsReadBack | crates/container-init-bootstrap-model/src/condition.rs:282-308 | a written operand is read as itself: references, booleans and literals in either quote |
| ConditionText.AtomIsReadBack | crates/container-init-bootstrap-model/src/condition.rs:246-281 | each keyword, call and feature text is read as its own condition and no other |
| ConditionPrinter.ParseOfParenthesised | crates/condition-expr/src/lib.rs:54-123 | one more pair of parentheses around a printed tree changes nothing |
| ConditionPrinter.CompareOfCompared | crates/condition-expr/src/lib.rs:144-168 | taking a printed comparison apart gives its two sides and its operator back |
| PathTemplates.ValidateInterpolations | crates/container-init-bootstrap-model/src/condition.rs:65-97 | the scan accepts exactly the templates all of whose interpolations are terminated and name a reference, and lists them in order |
| PathTemplates.RenderPath | crates/container-init-bootstrap-model/src/condition.rs:132-151 | the buffer loop renders what the token-wise definition renders; every returned path is absolute and has no parent component |
| RenderedText.RenderFillsIn | crates/container-init-bootstrap-model/src/condition.rs:132-151 | over template text: every literal piece keeps its place, every reference is replaced by its value, and the filled text is returned if acceptable and rejected otherwise; the first name without a value is reported, and an unclosed interpolation when none before it is missing |
| RenderedText.EveryTextIsTemplate | crates/container-init-bootstrap-model/src/condition.rs:132-151 | every text is literal pieces and references followed by literal text or an unclosed interpolation, so the law of filling in covers every rendering |
| PathTemplates.CheckedReferencesAreRendered | crates/container-init-bootstrap-model/src/condition.rs:65-151 | validation and rendering, two different scans, visit the same interpolations |
| PathTemplates.AcceptedTemplateRenders | crates/container-init-bootstrap-model/src/condition.rs:16-151 | an accepted template fails to render only if a checked reference has no value or the rendered text is rejected |
| PathTemplates.RenderDependsOnReferences | crates/container-init-bootstrap-model/src/condition.rs:132-151 | two tables that agree on the references of a template render it alike, failures included |
| Conditions.ListOutcome | crates/container-init-core/src/condition.rs:39-69 | a conjunction or disjunction is neutral exactly when all children are, and otherwise has the outcome, error or value, of the first child that is not |
| Conditions.NegationDistributes | crates/container-init-core/src/condition.rs:39-69 | De Morgan for the evaluator, with errors and short-circuiting included |
| Conditions.ConnectivesAnswer | crates/container-init-core/src/condition.rs:39-69 | a conjunction is true exactly when all children are, a disjunction false exactly when all are; otherwise the deciding child counts; negation swaps the two values; the constants |
| Conditions.ComparisonsAnswer | crates/container-init-core/src/condition.rs:49-50 | equality is true exactly when both sides have the same value; the left error counts first; inequality is the negation of equality |
| Conditions.PathTestsAnswer | crates/container-init-core/src/condition.rs:45-46 | the existence test and the writability test ask about the rendered path, and fail exactly as rendering fails |
| Conditions.InputSetAnswers | crates/container-init-core/src/condition.rs:47-48 | an input counts as set exactly when comparing it with itself is possible, and the test never fails; a feature holds exactly when it is enabled |
| Conditions.FixedNamesStandFor | crates/container-init-core/src/condition.rs:71-147 | each of the nine fixed names has its own value in the table, and eight of them the same value in comparisons |
| Conditions.InputNameStandsFor | crates/container-init-core/src/condition.rs:91-134 | a prefixed input name stands for the supplied value in both places, and is reported by name where it is missing |
| Conditions.EnvironmentNameStandsFor | crates/container-init-core/src/condition.rs:94-142 | a prefixed environment name stands for the supplied value in both places, and is reported by name where it is missing |
| Conditions.BuildValues | crates/container-init-core/src/condition.rs:71-97 | the nine insertions and the two loops, over maps in any order, fill the interpolation table |
| Conditions.OperandAgreesWithInterpolation | crates/container-init-core/src/condition.rs:71-147 | the match of comparisons and the table of interpolations, two separate definitions, give every name the same value, except the workspace root, which only the table knows |
| Conditions.ValuesAnswerLookup | crates/container-init-core/src/executor.rs:585-617 | the table answers every name by its namespace and nothing else: no insertion hides another |
| RuntimeInvariance.ResolveInputs | crates/container-init-core/src/identity.rs:112-135 | the insertion of names and aliases computes the resolved table, or fails when some value does not parse |
| ResolvedInputs.ResolvedExactlyWhen | crates/container-init-core/src/identity.rs:112-135 | a resolved table exists exactly when every supplied value parses; a name has the value of the last declaration that supplies it, and is missing when none does |
| ResolvedInputs.DeclaredIsSupplied | crates/container-init-core/src/identity.rs:353-370 | a value comes from the command line before the environment, in each from the name before its aliases, and last from the default; from the default alone where a request may not set it |
| RuntimeInvariance.RuntimeReference | crates/container-init-bootstrap-model/src/config.rs:778-799 | the scan of a text reports the first request-dependent interpolation |
| RuntimeInvariance.CheckAction | crates/container-init-bootstrap-model/src/config.rs:321-370 | one action passes if and only if no text field and no condition leaf names request data and its condition parses |
| RuntimeInvariance.ValidateRuntimeInvariance | crates/container-init-bootstrap-model/src/config.rs:293-372 | a configuration is accepted if and only if every action that is not request-scoped passes |
| RuntimeInvariance.ResolvedInputsAgree | crates/container-init-core/src/identity.rs:112-135 | whatever two requests supply, their resolved inputs agree on every name no runtime input declares, also where aliases collide |
| RuntimeInvariance.RenderingIsInvariant | crates/container-init-bootstrap-model/src/config.rs:778-799 | a path the scan passes renders alike under both requests, failures included |
| RuntimeInvariance.ConditionIsInvariant | crates/container-init-bootstrap-model/src/config.rs:801-842 | a condition the scan passes evaluates alike under both requests, errors included |
| RuntimeInvariance.AcceptedActionsIgnoreTheRequest | crates/container-init-bootstrap-model/src/config.rs:293-372 | non-interference: in an accepted configuration every action that is not request-scoped has the same condition outcome and the same rendered paths under any two requests, with working directory, features and filesystem answers fixed |
| RuntimeInvariance.OperandCheckIsExactOnTables | crates/container-init-bootstrap-model/src/config.rs:801-842 | over resolved tables a compared reference is reported if and only if two tables that agree outside the reported names give it different values |
| RuntimeExactness.InputIsObservableIff | crates/container-init-core/src/identity.rs:112-135 | two requests can tell an input reference apart if and only if a runtime input claims the name and no later declaration fills it with a fixed default |
| RuntimeExactness.OperandCheckIsExact | crates/container-init-bootstrap-model/src/config.rs:801-842 | over requests: what can be told apart is reported, and what is reported can be told apart, except for a runtime name that the table fills again with a fixed default |
| RuntimeExactness.LoadedChecksAreExact | crates/container-init-bootstrap-loader/src/merge.rs:485-512 | where no name or alias belongs to two inputs, as the loader demands, a reference is reported if and only if two requests can tell it apart |
| RuntimeExactness.ShadowedAliasIsReported | crates/container-init-bootstrap-model/src/config.rs:293-301 | without that demand the report can be idle: a concrete table whose alias is filled again by another input |
| Actions.PhaseOf | crates/container-init-bootstrap-model/src/action.rs:168-183 | handoff and privilege drop, and only they, are in the last phase; cgroup setup is in the root phase; everything else is in the phase of the user it runs as |
| PlanOrder.SortSucceedsIffAcyclic | crates/container-init-bootstrap-model/src/plan.rs:313-358 | a greedy run places every action if and only if the dependency relation has no cycle |
| PlanOrder.BlockedHasCycle | crates/container-init-bootstrap-model/src/plan.rs:348-356 | a non-empty set whose members all wait for each other contains a cycle (pigeonhole over a walk) |
| PlanOrder.LeftoverDependsOnCycle | crates/container-init-bootstrap-model/src/plan.rs:348-356 | what a maximal greedy run cannot place is exactly what depends on a cycle, directly or not |
| PlanOrder.GreedyIsTopological | crates/container-init-bootstrap-model/src/plan.rs:331-347 | a greedy order repeats nothing and puts dependencies first |
| PlanOrder.GreedyIsUnique | crates/container-init-bootstrap-model/src/plan.rs:331-347 | there is one greedy order of each length |
| PlanOrder.PhasesNeverDecrease | crates/container-init-bootstrap-model/src/plan.rs:331-347 | if no dependency is in a later phase, phases never decrease along the order |
| Planner.CollectDependents | crates/container-init-bootstrap-model/src/plan.rs:317-329 | the reverse adjacency lists hold each dependent once |
| Planner.Release | crates/container-init-bootstrap-model/src/plan.rs:341-346 | lowering the in-degrees of the dependents never underflows and queues exactly those that become zero |
| Planner.TakeNext | crates/container-init-bootstrap-model/src/plan.rs:339-347 | each turn takes the least (phase, index) among the ready actions and keeps the in-degrees exact |
| Planner.RunQueue | crates/container-init-bootstrap-model/src/plan.rs:331-347 | the queue ends with a maximal greedy run; a positive in-degree marks exactly the unplaced actions |
| Planner.StableTopologicalOrder | crates/container-init-bootstrap-model/src/plan.rs:313-358 | success if and only if acyclic; the order is a permutation with dependencies first; a failure reports, in their order, exactly the actions the greedy run cannot place, each of which has an unplaced dependency |
| Planner.ReportIsExact | crates/container-init-bootstrap-model/src/plan.rs:348-356 | an action is in the report of a failed sort if and only if it depends on a cycle |
| Planner.FindDuplicate | crates/container-init-bootstrap-model/src/config.rs:280-286 | a repeated action id is found if and only if there is one |
| Planner.CountKind | crates/container-init-bootstrap-model/src/plan.rs:197-263 | the count exceeds one exactly when a kind is declared twice |
| Planner.DeclaredDependencies | crates/container-init-bootstrap-model/src/plan.rs:213-226 | declared dependencies are collected if and only if each is known and none is the action itself |
| Planner.GatherDependencies | crates/container-init-bootstrap-model/src/plan.rs:212-274 | declared edges and the implicit ones (identity resolution before everything else, privilege drop before handoff) are exactly the dependency sets of the plan |
| PlanDependencies.PlannedDependenciesAreNeeds | crates/container-init-bootstrap-model/src/plan.rs:212-274 | the dependencies of a planned action are the ids of the actions it declares, of identity resolution unless it is that, and of the privilege drop if it hands off: no more and no fewer |
| PlanDependencies.DeclaredComesFirst | crates/container-init-bootstrap-model/src/plan.rs:215-226 | every declared dependency is carried by the planned action and planned before it |
| PlanDependencies.NeededComesFirst | crates/container-init-bootstrap-model/src/plan.rs:212-310 | whatever an action needs, declared or implied, is planned before it |
| PlanDependencies.PlannableIff | crates/container-init-bootstrap-model/src/plan.rs:192-310 | what can be planned, without a graph: size, unique ids, singleton kinds, declarations that hold, nothing that needs a later phase, no circle of needs |
| PlanDependencies.CyclesAreNeeds | crates/container-init-bootstrap-model/src/plan.rs:212-274 | the cycles of the dependency graph are the circles of needs |
| IdentityUse.UnresolvedIdentityIsUnused | crates/container-init-bootstrap-model/src/plan.rs:228-231 | in every plannable configuration without identity resolution each rendered path field is the same for any two identities, and no action is of a kind or ownership that uses the resolved account |
| IdentityUse.ReferenceStandsInText | crates/container-init-bootstrap-model/src/action.rs:560-578 | every name rendering looks up stands in the text after an opening mark, which is why searching the text for the mark and the namespace misses none |
| Planner.FindPhaseViolation | crates/container-init-bootstrap-model/src/plan.rs:276-291 | a dependency in a later phase is found if and only if there is one |
| Planner.BuildPlan | crates/container-init-bootstrap-model/src/plan.rs:192-310 | a plan is built if and only if ids are unique, singleton kinds appear once, dependencies are known, no dependency is in a later phase and the graph is acyclic; it is the greedy plan |
| BootstrapPlan.FromConfig | crates/container-init-bootstrap-model/src/plan.rs:189-310 | a configuration gets a plan if and only if it passes the runtime-invariance check and its actions can be planned |
| BootstrapPlan.PlannedActionsIgnoreTheRequest | crates/container-init-bootstrap-model/src/config.rs:293-372 | every planned action that is not request-scoped has the same condition outcome and the same rendered paths under any two requests |
| Planner.PlansAreCanonical | crates/container-init-bootstrap-model/src/plan.rs:189-310 | every plan covers all actions once with dependencies first and ascending phases; identity resolution, if present, is first; privilege drop and then handoff, if present, are last |
| Planner.PlansAreUnique | crates/container-init-bootstrap-model/src/plan.rs:189-358 | a configuration has at most one plan |
| Executor.RunOne | crates/container-init-core/src/executor.rs:131-264 | one turn: skipped on an unsuccessful dependency, then condition, run-as check, effect, failure policy and report path, in this order |
| RunOutcomes.RecordedExactlyWhen | crates/container-init-core/src/executor.rs:131-264 | over every run, each status of each action that had its turn if and only if: from the earlier outcomes, the answers the action meets and its failure policy |
| RunOutcomes.StopsExactlyWhen | crates/container-init-core/src/executor.rs:131-264 | a run stops at an action exactly when it is missing or of another kind, its condition fails, its run-as check fails, its path does not render, or its effect fails under the error policy; it is aborted exactly when it does not reach the end |
| RunOutcomes.FailurePolicyDecides | crates/container-init-core/src/executor.rs:239-262 | an effect that was performed and failed ends the run exactly under the error policy or when the path does not render; otherwise it is recorded as the policy says |
| RunOutcomes.PerformedExactlyWhen | crates/container-init-core/src/executor.rs:145-222 | an effect is performed exactly when the action had its turn, its dependencies are recorded as succeeded, its condition is true, it is not waived for root and run-as is allowed |
| Executor.Execute | crates/container-init-core/src/executor.rs:127-264 | a run aborts exactly when some verdict is fatal; aborted or not, its outcomes are those of the first actions of the plan in order, with the statuses that solve the dependency equations; it stops at the end or at the first fatal action; the effects performed are exactly the allowed ones among the actions that had their turn, in order |
| Executor.RunsAreUnique | crates/container-init-core/src/executor.rs:127-264 | plan and oracle determine where the run stops, what it records and what it performs |
| Executor.SolutionsAreUnique | crates/container-init-core/src/executor.rs:127-264 | the dependency equations of a topologically ordered plan have one solution |
| Executor.VerdictsIgnoreTheOrder | crates/container-init-core/src/executor.rs:127-264 | statuses and abortion do not depend on which valid order of the same actions is used |
| Executor.ClosureSucceeded | crates/container-init-core/src/executor.rs:145-159 | success reaches down the whole dependency closure |
| Executor.EffectsAreSafe | crates/container-init-core/src/executor.rs:127-264 | over every run, aborted or not: where an effect was attempted, every action in its transitive dependency closure had its turn before, is recorded in that run as succeeded, and its own effect was performed before with success, unless it is one that is skipped |
| Executor.HandoffNeedsDroppedPrivileges | crates/container-init-core/src/executor.rs:178-222 | over every run of every plan no handoff is performed unless the planned privilege drop is recorded as succeeded before and was performed before, except for a root service or a root target, for whom it is skipped |
| ConfigTree.GetOfPut | crates/dev-env-loader/src/merge.rs:508-531 | reading a path that was written gives the value written |
| ConfigTree.PutLeavesApart | crates/dev-env-loader/src/merge.rs:508-531 | writing at a path changes nothing at a path apart from it |
| ConfigTree.RemoveLeavesApart | crates/dev-env-loader/src/merge.rs:508-543 | removing a path changes nothing at a path apart from it |
| ConfigTree.NothingBelowLeaf | crates/dev-env-loader/src/merge.rs:508-543 | below a value that is not a table nothing is read, written or removed |
| ConfigTree.JoinExtendsOld | crates/dev-env-loader/src/merge.rs:254-321 | without the prefer-child policy a merge extends the old tree, whatever paths are overridden |
| ConfigTree.JoinExtendsNew | crates/dev-env-loader/src/merge.rs:254-321 | without overrides a merge, strict or preferring the child, holds everything that came in |
| ConfigTree.JoinIsLeast | crates/dev-env-loader/src/merge.rs:254-321 | any common extension of two trees proves the merge possible and extends its result |
| ConfigTree.JoinSucceedsIffAgree | crates/dev-env-loader/src/merge.rs:254-321 | a strict merge succeeds if and only if the trees agree wherever both hold a value and not both a table |
| ConfigTree.PreferringAlwaysJoins | crates/dev-env-loader/src/merge.rs:286-299 | under a preferring merge there is never a conflict |
| ConfigTree.IncomingLeafStands | crates/dev-env-loader/src/merge.rs:254-299 | wherever a merge succeeds, preferring or not, every incoming leaf that no override owns stands in the result |
| ConfigTree.OtherLeafStands | crates/dev-env-loader/src/merge.rs:254-299 | every old leaf that the incoming table neither holds nor passes over stands in the result |
| ConfigTree.MergeIsLeastUpperBound | crates/dev-env-loader/src/merge.rs:237-321 | a list of tables merges if and only if some tree extends them all, and then into the smallest such tree |
| ConfigTree.MergeOrderIsIrrelevant | crates/dev-env-loader/src/merge.rs:237-321 | order and repetition of the merged tables do not matter: always the same tree, or always failure |
| ConfigMerge.MergedConfig.RejectsProvider | crates/dev-env-loader/src/merge.rs:323-357 | an untrusted declaration is rejected if and only if its path leads to a provider that is not there, or it is a table of providers whose first key is not there |
| ConfigMerge.MergedConfig.MergePath | crates/dev-env-loader/src/merge.rs:254-321 | success if and only if the join exists and the provider rule admits the declaration and all below it; the tree is then the old one with the join at that path; a trusted source meets a conflict at a differing value under a strict policy, and never under a preferring one, where its leaf stands; an untrusted source only adds values and never changes the set of providers |
| ConfigMerge.MergedConfig.MergeEntries | crates/dev-env-loader/src/merge.rs:276-282 | the recursion over the keys of two tables computes their join, in any key order, under the provider rule for each key, and no write meets a scalar on its way |
| ConfigMerge.MergedConfig.MergeRoot | crates/dev-env-loader/src/merge.rs:237-252 | merging a whole table makes the root the join of both; success if and only if the join exists and the provider rule admits every key; a trusted table under a strict policy is taken exactly when the trees agree and gives their least extension, under a preferring one it is always taken; incoming leaves stand; an untrusted table only extends the root |
| ConfigMerge.MergedConfig.MergeSection | crates/dev-env-loader/src/merge.rs:237-252 | merging below one key succeeds if and only if the joins exist, makes that key their table and leaves every other key alone |
| ConfigMerge.MergedConfig.ApplyOverride | crates/dev-env-loader/src/merge.rs:392-456 | set, unset, replace, append and remove, with their type errors, compute the specified tree or leave it alone |
| ConfigMerge.MergedConfig.ApplyOverrides | crates/dev-env-loader/src/merge.rs:69-72 | the overrides are applied if and only if the source may use every one of them and each succeeds in turn |
| ConfigMerge.MergedConfig.MergeProfile | crates/dev-env-loader/src/merge.rs:36-74 | a profile is accepted if and only if its source may say what it says and every stage succeeds: policy under the old policy, configuration and inputs under the new one, then permitted overrides; the tree is their result; an untrusted profile is confined to additions and permitted overrides |
| ConfigMerge.StrictProfilesMergeTogether | crates/dev-env-loader/src/merge.rs:37-75 | trusted profiles of configuration under a strict policy, loaded one after the other, are the strict merge of all their tables: independent of order, possible exactly when some tree extends them all, and then the smallest |
| ConfigMerge.OverrideRights | crates/dev-env-loader/src/merge.rs:359-390 | an untrusted override is permitted exactly by a matching pattern of its own source: workspace patterns for a workspace overlay, command-line patterns for the command line |
| ConfigMerge.OverrideTakesEffect | crates/dev-env-loader/src/merge.rs:392-456 | after an override the path holds the value set, nothing, the replaced or extended list, or exactly the items not removed, in order and as often as before |
| ConfigMerge.OverridesKeepUnaddressed | crates/dev-env-loader/src/merge.rs:392-456 | a list of overrides changes nothing at a path none of them addresses, and nothing at a leaf above which none starts |
| ConfigMerge.UntrustedMergesKeepValues | crates/dev-env-loader/src/merge.rs:36-74 | a value present before an untrusted merge is unchanged unless it lies at or below an override path the policy allows this source |
| ConfigMerge.UntrustedMergesKeepPolicy | crates/dev-env-loader/src/merge.rs:202-235 | policy and inputs survive every untrusted merge, whatever the policy allows |
| ConfigMerge.UserOverlaysOnlyAdd | crates/dev-env-loader/src/merge.rs:359-390 | a source that is neither trusted, workspace nor command line carries no override and only adds new paths |
| BootstrapMerge.MergedBootstrap.MergeScalar | crates/container-init-bootstrap-loader/src/merge.rs:389-425 | a slot changes only to a new value or under an override; its origin is replaced exactly when its value changes; set slots and origins stay the same |
| BootstrapMerge.MergedBootstrap.MergeScalars | crates/container-init-bootstrap-loader/src/merge.rs:101-238 | all slots of a profile merge if and only if every change is overridden, into the old values overlaid by the new ones; an origin is replaced exactly where its value changed |
| BootstrapMerge.EverySlotIsMerged | crates/container-init-bootstrap-loader/src/merge.rs:101-238 | no slot is left out of the sequence of merges |
| BootstrapMerge.MergedBootstrap.MergeInputs | crates/container-init-bootstrap-loader/src/merge.rs:251-274 | inputs merge if and only if every change is overridden, in any order; an origin is replaced exactly where its input changed |
| BootstrapMerge.MergedBootstrap.MergeAction | crates/container-init-bootstrap-loader/src/merge.rs:290-328 | the lookup through the index agrees with a search through the vector, and the index stays its exact inverse |
| BootstrapMerge.MergedBootstrap.MergeActions | crates/container-init-bootstrap-loader/src/merge.rs:276-329 | the loop over the actions of a profile adopts them or reports the first failure |
| BootstrapMerge.AdoptSucceedsIff | crates/container-init-bootstrap-loader/src/merge.rs:276-329 | adoption fails exactly for a repeated id, a change without override or trust, or more than 8192 actions |
| BootstrapMerge.DefinitionIgnoresOrigin | crates/container-init-bootstrap-loader/src/merge.rs:427-433 | two actions are one definition exactly when a common origin would make them equal |
| BootstrapMerge.AdoptedIds | crates/container-init-bootstrap-loader/src/merge.rs:276-329 | the ids afterwards are the old ones followed by the new ones, each once, and none moves |
| BootstrapMerge.AdoptedHold | crates/container-init-bootstrap-loader/src/merge.rs:276-329 | afterwards every id named by the profile stands for what the profile said, with the override reason filled in |
| BootstrapMerge.UnnamedAreKept | crates/container-init-bootstrap-loader/src/merge.rs:276-329 | actions the profile does not name are kept as and where they are |
| BootstrapMerge.NamesKeepFirstOrder | crates/container-init-bootstrap-loader/src/merge.rs:276-329 | accumulated names stand in the order of their first declarations |
| BootstrapMerge.IndexMakesDistinct | crates/container-init-bootstrap-loader/src/merge.rs:290-303 | while the index is the inverse of the vector, action ids are distinct |
| BootstrapMerge.PolicyOnlyGrows | crates/container-init-bootstrap-loader/src/merge.rs:240-249 | over every sequence of profiles the policy sets only grow |
| BootstrapMerge.ContributionIsReflected | crates/container-init-bootstrap-loader/src/merge.rs:61-332 | over every sequence of merges scalars and inputs are the overlay of all declarations, policies are united and actions stand in first-declaration order |
| BootstrapMerge.LastScalarCounts | crates/container-init-bootstrap-loader/src/merge.rs:389-425 | a slot holds what the last profile that declares it says |
| BootstrapMerge.LastInputCounts | crates/container-init-bootstrap-loader/src/merge.rs:251-274 | an input is what the last profile that declares it says |
| BootstrapMerge.UntrustedContribution | crates/container-init-bootstrap-loader/src/merge.rs:80-113 | an untrusted profile appends actions, may fill a schema that nobody set, and changes nothing else |
| BootstrapMerge.MergedBootstrap.MergeProfile | crates/container-init-bootstrap-loader/src/merge.rs:61-332 | a profile is accepted if and only if its source may contribute and all its changes are overridden; the invariants hold afterwards in every case, and on success the accumulator reflects one more profile |
| MaterializationCache.Service.Clear | crates/dev-env-core/src/service.rs:131-134 | an emptied cache counts no bytes |
| MaterializationCache.Service.Cached | crates/dev-env-core/src/service.rs:144-153 | a hit is exactly a present, unexpired entry; expired entries go, the entry hit is stamped |
| MaterializationCache.Service.RemoveExpired | crates/dev-env-core/src/service.rs:207-221 | exactly the unexpired entries stay and the byte counter is their sum |
| MaterializationCache.StaysExactlyWhen | crates/dev-env-core/src/service.rs:207-215 | an entry stays exactly as long as its last use lies no further back than the time to live |
| MaterializationCache.Service.SumBytes | crates/dev-env-core/src/service.rs:215-220 | the recomputed counter is the sum over the live entries |
| MaterializationCache.Service.Oldest | crates/dev-env-core/src/service.rs:227-232 | the entry chosen was used no later than any other |
| MaterializationCache.Service.EvictToLimits | crates/dev-env-core/src/service.rs:223-243 | eviction ends within both limits, removes only entries used no later than every survivor, and stops as soon as the limits hold |
| MaterializationCache.Service.CacheSuccess | crates/dev-env-core/src/service.rs:155-179 | an oversized value changes nothing; otherwise the entry is inserted and an eviction follows; under a strictly increasing clock the new entry stays; no saturating operation saturates |
| MaterializationCache.Service.Prepare | crates/dev-env-core/src/service.rs:181-205 | whatever the history, a valid key gets what materialising it would give; expired entries go, a hit is stamped, a success that fits is inserted with an eviction, a failure or an oversized value is not cached, and nothing else changes |
| MaterializationCache.EvictionIsUnique | crates/dev-env-core/src/service.rs:223-243 | with distinct times of use the result of eviction is determined |
| MaterializationCache.NewestSurvives | crates/dev-env-core/src/service.rs:155-179 | an entry used after every other one and small enough by itself is never evicted |
| MaterializationCache.InsertionIsExact | crates/dev-env-core/src/service.rs:164-177 | replacing or inserting an entry keeps the byte counter exact |
| HandoffTrace.ClientIsOrderly | crates/container-init-cli/src/application.rs:126-171 | every trace of the client is orderly: a prepare only right after a ready and compatible greeting and not while one may be dispatched; one commit, for a valid transaction of the greeted snapshot, after helper readiness; release only after a confirmed commit; abort only before release |
| HandoffTrace.ReleaseComesAfterConfirmation | crates/container-init-backend/src/client.rs:324-423 | before a release byte stands a report of that very transaction as committed, with a receipt, after its commit request |
| HandoffTrace.CommitIsSentOnce | crates/container-init-backend/src/client.rs:324-350 | no trace sends a commit request twice |
| HandoffTrace.PrepareIsRepeatedSafely | crates/container-init-backend/src/client.rs:196-322 | between two prepare requests the server refused the first as retryable |
| HandoffClient.CommitSucceedsIff | crates/container-init-backend/src/client.rs:324-423 | a commit returns a receipt if and only if the first reply that settles the matter confirms this transaction with it; only the reply to the commit itself may be lost, garbled or unaware |
| HandoffClient.Session.CommitUntil | crates/container-init-backend/src/client.rs:324-350 | outcome, events and what is left of the script are those of the reply script; the trace is one of the automaton |
| HandoffClient.Session.PollExecResult | crates/container-init-backend/src/client.rs:352-380 | polling shows one exchange per reply and ends with the first settling one, or with an unknown outcome at the deadline |
| HandoffClient.PrepareSucceedsIff | crates/container-init-backend/src/client.rs:196-322 | a preparation holds a transaction if and only if, after rounds the server lets the client repeat, the server welcomes the client and prepares that transaction on the snapshot of its welcome |
| HandoffClient.Session.PrepareUntil | crates/container-init-backend/src/client.rs:196-219 | held transaction, events and what is left of the script are determined by script and surroundings; nothing stays prepared that is not held |
| HandoffClient.Session.Stop | crates/container-init-cli/src/preflight.rs:183-188 | the abort byte, the kill, and one abort request exactly when the commit was not confirmed, in this order |
| HandoffClient.Session.Exec | crates/container-init-cli/src/application.rs:114-171 | the whole trace and the result are determined by script and surroundings: success if and only if a transaction is held, the helper is spawned and ready, the commit returns a receipt, the release byte is written, the socket closes and the child is reaped; the trace is one of the automaton, hence orderly |
| HandoffRuns.ExecNeedsConfirmedCommit | crates/container-init-cli/src/application.rs:114-171 | over every interleaving of replies, losses, timeouts, signals and helper steps the helper execs at most once, and only after its checks passed, one commit was sent and confirmed with a receipt for that id, and the release byte was written |
| HandoffRuns.CommitNeedsVerifiedHelper | crates/container-init-cli/src/preflight.rs:331-345 | a commit is sent only when the helper has passed its checks and reported ready |
| HandoffRuns.UnconfirmedRunsNeverExec | crates/container-init-cli/src/preflight.rs:179-188 | without a confirmation, or after an abort request, no release byte is written and nothing is executed |
| HandoffRuns.FinishedUnconfirmedNeverExecs | crates/container-init-cli/src/preflight.rs:331-364 | a client that finished unconfirmed stays without exec however long the helper goes on |
| HandoffRuns.ExecIsReachable | crates/container-init-cli/src/application.rs:114-171 | for every transaction id some run does reach exec |
| HandoffRuns.RunningMeansExecIff | crates/container-init-cli/src/preflight.rs:190-201 | a client past the wait for exec has released one confirmed commit and its helper has execed or is gone; the command was really started if and only if the helper was not taken away between its readiness and its exec |
| HandoffRuns.UndisturbedReleaseStarts | crates/container-init-cli/src/preflight.rs:190-201 | where the helper is there to take the release byte and is not taken away between it and exec, the command was started |
| HandoffRuns.RunningWithoutExec | crates/container-init-cli/src/preflight.rs:226-233 | for every transaction id a run reaches that state without any exec |
| PasswdFile.ReconcilePasswd | crates/container-init-posix/src/accounts.rs:176-241 | the line loop computes the specified text, changed flag and errors |
| PasswdFile.AcceptedExactlyWhen | crates/container-init-posix/src/accounts.rs:183-220 | a file is accepted if and only if its records are well formed, no other user has the uid and the user occurs at most once |
| PasswdFile.LinesAreKept | crates/container-init-posix/src/accounts.rs:176-241 | as lines are read, every line keeps its place; the target keeps all fields but uid, gid and home; other lines are unchanged, but for a second carriage return ending a comment or blank line |
| AccountText.PasswdTextIsKeptIff | crates/container-init-posix/src/accounts.rs:176-241 | byte for byte, a rewrite touches nothing but the user's record, rewritten or appended, if and only if no other line ends in CRLF |
| AccountText.PasswdRawLineIsKeptIff | crates/container-init-posix/src/accounts.rs:183-187 | any other raw line survives a rewrite if and only if it does not end in CRLF; what remains of it is the line as read |
| AccountText.PasswdIsAppendedToIff | crates/container-init-posix/src/accounts.rs:221-235 | where the user had no record the new text is the old one with a record appended if and only if the old one holds no CRLF |
| AccountText.CrLfPasswdIsRewritten | crates/container-init-posix/src/accounts.rs:183-220 | a concrete CRLF file whose record of somebody else loses its carriage return |
| PasswdFile.TargetIsUnique | crates/container-init-posix/src/accounts.rs:176-241 | afterwards exactly one record is the target's, with the requested uid, gid and home, and no other record has that uid |
| PasswdFile.NewRecordIsAppended | crates/container-init-posix/src/accounts.rs:221-231 | a user without a record gets one at the end, with the requested uid, gid and home, a locked password and the default shell |
| PasswdFile.ReapplyingChangesNothing | crates/container-init-posix/src/accounts.rs:176-241 | reconciling a reconciled file succeeds, reports no change and leaves the text alone |
| PasswdFile.LookupFileUser | crates/container-init-posix/src/credentials.rs:150-202 | the search with early return answers the first matching record or the first malformed one |
| PasswdFile.ReadBackFindsTarget | crates/container-init-posix/src/credentials.rs:150-202 | looking up the target in the reconciled file, by name or by uid, finds it with its uid, gid and home |
| GroupFile.EnrollUser | crates/container-init-posix/src/accounts.rs:262-290 | the member loop keeps the first occurrence of the user or adds it at the end, and notes a change exactly when the field differs |
| GroupFile.ReconcileGroup | crates/container-init-posix/src/accounts.rs:243-305 | the line loop computes the specified text, changed flag and errors |
| GroupFile.EnrollingKeepsOthers | crates/container-init-posix/src/accounts.rs:268-284 | all other non-empty members stay, in order |
| GroupFile.EnrolledOnce | crates/container-init-posix/src/accounts.rs:268-284 | the user is there exactly once |
| GroupFile.GroupLinesAreKept | crates/container-init-posix/src/accounts.rs:243-305 | as lines are read, every group of the gid lists the user once and everybody else as before; every other line is unchanged, but for a second carriage return ending a comment or blank line |
| AccountText.GroupTextIsKeptIff | crates/container-init-posix/src/accounts.rs:292-304 | byte for byte, a rewrite touches nothing but the groups of the gid, rewritten or appended, and a missing newline at the end, if and only if no other line ends in CRLF |
| AccountText.GroupRawLineIsKeptIff | crates/container-init-posix/src/accounts.rs:250-254 | any other raw line survives a rewrite if and only if it does not end in CRLF |
| AccountText.GroupLosesCr | crates/container-init-posix/src/accounts.rs:293-296 | a CRLF file with a group of another gid is not kept byte for byte, as the comment there promises |
| GroupFile.TwoApplicationsSuffice | crates/container-init-posix/src/accounts.rs:243-305 | for every accepted file a second application is accepted and reaches a text the third leaves unchanged |
| GroupFile.OneApplicationSufficesIff | crates/container-init-posix/src/accounts.rs:292-299 | one application reaches the fixed point if and only if the gid already had a group |
| GroupFile.OneApplicationMayNotSuffice | crates/container-init-posix/src/accounts.rs:292-299 | for the empty file one application is not enough |
| Accounts.AccountFiles.MapUser | crates/container-init-posix/src/accounts.rs:12-113 | success leaves both files reconciled and the target readable, and the final check never fails; an error leaves both files as they were unless the rollback fails too; root is never touched |
| Namespaces.ParseMap | crates/container-init-posix/src/namespace.rs:27-64 | the loop accepts exactly the maps whose lines parse; the result is not empty and no interval end overflows |
| Namespaces.ParseUndoesPrint | crates/container-init-posix/src/namespace.rs:27-104 | every valid map survives printing and parsing |
| Namespaces.MappedKeepsOffset | crates/container-init-posix/src/namespace.rs:70-88 | a mapped id keeps its offset inside the first covering interval |
| Namespaces.MappingSucceedsIff | crates/container-init-posix/src/namespace.rs:70-88 | mapping fails exactly when no interval covers the id or the image exceeds 32 bits |
| Namespaces.SwappedMapInverts | crates/container-init-posix/src/namespace.rs:70-88 | over disjoint container intervals the swapped map takes every image back |
| Namespaces.MappingIsInjective | crates/container-init-posix/src/namespace.rs:70-88 | over disjoint container intervals no two ids have the same image |
| MountInfo.DecodeMountinfoPath | crates/container-init-posix/src/namespace.rs:157-181 | the index loop decodes what the recursive definition decodes |
| MountInfo.DecodeUndoesEncode | crates/container-init-posix/src/namespace.rs:157-181 | decoding undoes octal escaping of any set of bytes that includes the backslash |
| MountInfo.DecodingNeverLengthens | crates/container-init-posix/src/namespace.rs:157-181 | a decoded path is no longer than its encoding |
| MountInfo.DecodeFailsIff | crates/container-init-posix/src/namespace.rs:157-181 | decoding fails if and only if the scan meets a backslash without three octal digits of value at most 255 |
| TextLines.LinesOfWritten | crates/container-init-posix/src/accounts.rs:232-235 | reading the lines of a written file gives them back, up to carriage returns at line ends |
| RawText.WrittenOfLinesIff | crates/container-init-posix/src/accounts.rs:232-235 | writing the lines of a text gives the text back if and only if it holds no CRLF |

## Left out

- TOML, JSON and serde parsing: the model starts from parsed trees and records; unknown keys are rejected there, so a configuration has no `policy` or `inputs` key (crates/dev-env-model/src/config.rs:204-217).
- Sockets, framing, wall-clock time, peer credentials and signal delivery: replies, losses and deadlines are choices of the environment; a script of replies ends when the deadline passes.
- The server's transaction code: any reply to any request is possible.
- Filesystem actions, SSH keys, cgroups, mounts and credential changes: an oracle says whether an effect succeeds. The effect of `service.ssh.prepare` reads the identity directly and is outside the non-interference theorem.
- The field checks of `BootstrapConfig::validate` other than runtime invariance and planning, `MergedBootstrap::finish`, and the resolution order of `IdentityResolver::resolve_prevalidated`: settled by reading single branches.
- Profile inheritance, the trust store, command-line parsing, doctor, explain and output: no properties across several steps.
- One shared execution for concurrent requests of a key, which crates/dev-env-core/src/service.rs:87-89 describes: the service is used through exclusive access, so no two requests are concurrent.
- Error texts, provenance and reasons: error kinds only.
- BootstrapPlan.FromConfig: the field checks of single actions and inputs in `validate`, and plan effects and rationale texts, are not modelled.
- Executor.Execute: an aborted run returns what it recorded so far, which the code drops with its error; the receipt file, warnings and the handoff command are not modelled; a condition, path or effect is one answer of the oracle.
- ConfigMerge.MergedConfig.MergePath: origins and provenance are not modelled, and scalars compare as texts, so the float that differs from itself is not captured.
- ConfigMerge.MergedConfig.ApplyOverride: where the code panics on a path through a scalar the model returns an error, and which of several overrides is applied first is given by their sequence.
- ConfigMerge.MergedConfig.MergeProfile: the decoder of the policy table is a parameter, and keys hold no dots.
- BootstrapMerge.MergedBootstrap.MergeProfile: parsing of the override table into a catalog is not modelled.
- MaterializationCache.Service.Prepare: materialisation is a function of the key, and limits are configured before use with the byte limit at most half of the machine's range.
- HandoffClient.Session.PrepareUntil: validity of a prepared transaction is one bit of the reply; its fields are not modelled.
- Accounts.AccountFiles.MapUser: the fallback to the system's account database after an unsuccessful file lookup is not modelled; it is never reached after a success.
- ConfigTree.GetOfPut: `set_path` and `remove_path` are modelled on values; walking nested tables in place is not captured.
- Setting a login shell, the exec budget check, plan paging, the other fields of mountinfo lines and the input alias check: each is one pass over its input whose result is read off a single branch.
- IdentityUse.UnresolvedIdentityIsUnused: paths only; planning does not look at conditions (crates/container-init-bootstrap-model/src/action.rs:560-588), so one may still compare the identity.
- ConditionText.ConditionIsReadBack: literals that hold both kinds of quotes, call arguments with an unpaired quote and lists of fewer than two have no written form here.
- Namespaces.ParseMap: line numbers in errors are not modelled.
