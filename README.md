# If: TensorFlow import of a conditional op

This project models the `If` op of ND4J's SameDiff (`org.nd4j.linalg.api.ops.impl.controlflow.If`)
and proves properties of that model. The core is `doImport`, which builds an If from the flat
node list of a TensorFlow graph. It walks the list with a cursor shared with every nested
import, in eight loops:

1. Enter nodes declare the loop's inputs.
2. Merge nodes declare loop variables.
3. The predicate runs up to its LoopCond.
4. Switch nodes are skipped.
5. Identity nodes are imported into the true body.
6. The true body runs up to NextIteration; an Enter inside it starts a nested If.
7. NextIteration nodes become the If's returned variables.
8. Exit nodes are resolved in the parent.

The rest of the op is small: `initFromTensorFlow`, the branch record `exectedTrueOrFalse`, and
the constant descriptors.

A SameDiff graph matters here only as the variable names it declares, so each scope is a set
of names:

- `parent` is the graph the If is imported into.
- `condition` is the predicate scope.
- `body` is the true-body scope.

Two collaborators are parameters (`Env`): the name normalisation of
`TFGraphMapper.getNodeName`, and the set of op tags the op registry can instantiate.

Files:

- `optags.dfy` (`OpTags`): how the scan recognises node kinds. Java's `equalsIgnoreCase` is
  modelled over ASCII, and the declaration tests use a case-sensitive `startsWith`.
- `model.dfy` (`ImportModel`): the import as functions over values, one tail-recursive
  function per loop. `Import` and `BodyPhase` are mutually recursive, through the nested If.
- `scanner.dfy` (`IfImport`): the source's own shape, with the corrected resume after a
  nested import (see Findings).
  - `ImportSession` is the shared cursor, skip set and parent, which nested imports update
    in place.
  - `IfOp` is the op. Each loop is a method with a `while` loop, proved to end in the state
    the matching function computes.
- `proofs.dfy` (`ImportProofs`): what each loop consumes and declares, how names are
  resolved, and the branch record.
- `invariant.dfy` (`ImportInvariant`): what a whole import keeps invariant, and where the
  true-body loop stops.
- `findings.dfy` (`ImportFindings`): a defect in the true-body loop, shown on a concrete graph.

An import aborts in two cases, and `Result` models both:

- `UnknownOp`: the registry has no op for a tag.
- `MissingVariable`: a parent variable is looked up, comes back null, and is then
  dereferenced.

The true body gets no variable for an Identity node or for a body op's result:

- The Identity loop declares only the Identity node's inputs (If.java:412-416).
- The body loop records an argument edge for the op and declares nothing for its result
  (If.java:463-484).
- Declaring those names would be up to the child op's `initFromTensorFlow`, which is not
  part of this model.

## Model

| member | source | states |
|---|---|---|
| OpTags.EqualsIgnoreCase | nd4j-backends/nd4j-api-parent/nd4j-api/src/main/java/org/nd4j/linalg/api/ops/impl/controlflow/If.java:315 | Java's `equalsIgnoreCase` over ASCII: same length, and the characters agree after lower-casing. The `Is*` tag tests built on it model every structural test of the scan: `enter` (315, 456), `merge` (342), `LoopCond` (360), `Switch` (390), `Identity` (403), `NextIteration` (432, 501) and `Exit` (522) |
| OpTags.IsDeclaration | nd4j-backends/nd4j-api-parent/nd4j-api/src/main/java/org/nd4j/linalg/api/ops/impl/controlflow/If.java:366-368 | the disjunction of `isConst`, `isVar` and `isPlaceholder`: `const` in any case, or a case-sensitive `VariableV` or `Placeholder` prefix; the body loop uses the same test (444-446) |
| OpTags.TagsExclusive | nd4j-backends/nd4j-api-parent/nd4j-api/src/main/java/org/nd4j/linalg/api/ops/impl/controlflow/If.java:432-456 | every op tag plays at most one role (a marker or a declaration), so the order of the scan's tag tests never decides how a node is treated |
| OpTags.CaseSensitivity | nd4j-backends/nd4j-api-parent/nd4j-api/src/main/java/org/nd4j/linalg/api/ops/impl/controlflow/If.java:366-368 | markers and `const` match in any case (`Enter`, `ENTER`, `loopcond`, `Const`); `VariableV` and `Placeholder` only as written (`variablev2`, `placeholder` and `Variable` are not declarations) |
| ImportModel.Resolve | nd4j-backends/nd4j-api-parent/nd4j-api/src/main/java/org/nd4j/linalg/api/ops/impl/controlflow/If.java:473-481 | an input is taken from the predicate scope if it is there, else from the true body, else it is copied from the parent; it is a miss exactly when no scope has it; the scalar-literal branch is never reached |
| ImportModel.Import | nd4j-backends/nd4j-api-parent/nd4j-api/src/main/java/org/nd4j/linalg/api/ops/impl/controlflow/If.java:285-535 | a successful doImport never moves the shared cursor back, and moves it forward whenever a node is left |
| ImportModel.EnterPhase | nd4j-backends/nd4j-api-parent/nd4j-api/src/main/java/org/nd4j/linalg/api/ops/impl/controlflow/If.java:312-334 | the Enter loop never moves the cursor back |
| ImportModel.MergePhase | nd4j-backends/nd4j-api-parent/nd4j-api/src/main/java/org/nd4j/linalg/api/ops/impl/controlflow/If.java:338-352 | the Merge loop never moves the cursor back |
| ImportModel.PredicatePhase | nd4j-backends/nd4j-api-parent/nd4j-api/src/main/java/org/nd4j/linalg/api/ops/impl/controlflow/If.java:356-380 | the predicate loop never moves the cursor back, and consumes at least one node (the LoopCond or another) when a node is left |
| ImportModel.SwitchPhase | nd4j-backends/nd4j-api-parent/nd4j-api/src/main/java/org/nd4j/linalg/api/ops/impl/controlflow/If.java:385-395 | the Switch loop never moves the cursor back |
| ImportModel.IdentityPhase | nd4j-backends/nd4j-api-parent/nd4j-api/src/main/java/org/nd4j/linalg/api/ops/impl/controlflow/If.java:398-420 | a successful Identity loop never moves the cursor back |
| ImportModel.Scopes | nd4j-backends/nd4j-api-parent/nd4j-api/src/main/java/org/nd4j/linalg/api/ops/impl/controlflow/If.java:312-395 | the four phases before the Identity nodes never move the cursor back |
| ImportModel.BodyPhase | nd4j-backends/nd4j-api-parent/nd4j-api/src/main/java/org/nd4j/linalg/api/ops/impl/controlflow/If.java:424-491 | a successful true-body loop never moves the cursor back |
| ImportModel.BodyNode | nd4j-backends/nd4j-api-parent/nd4j-api/src/main/java/org/nd4j/linalg/api/ops/impl/controlflow/If.java:445-487 | a body node that is not skipped, not NextIteration and not Enter is consumed: the cursor moves exactly one node on |
| ImportModel.AfterNested | nd4j-backends/nd4j-api-parent/nd4j-api/src/main/java/org/nd4j/linalg/api/ops/impl/controlflow/If.java:456-460 | after a nested import, the outer scan never resumes before where the nested import stopped |
| ImportModel.NextIterationPhase | nd4j-backends/nd4j-api-parent/nd4j-api/src/main/java/org/nd4j/linalg/api/ops/impl/controlflow/If.java:498-509 | the NextIteration loop never moves the cursor back |
| ImportModel.Conclude | nd4j-backends/nd4j-api-parent/nd4j-api/src/main/java/org/nd4j/linalg/api/ops/impl/controlflow/If.java:494-530 | the phases after the true body never move the cursor back |
| ImportModel.ExitPhase | nd4j-backends/nd4j-api-parent/nd4j-api/src/main/java/org/nd4j/linalg/api/ops/impl/controlflow/If.java:518-530 | the Exit loop never moves the cursor back |
| ImportModel.EnterStep | nd4j-backends/nd4j-api-parent/nd4j-api/src/main/java/org/nd4j/linalg/api/ops/impl/controlflow/If.java:323-333 | one Enter node: it goes to the skip set, each normalised input is resolved or created in the parent and declared in both scopes, and the inputs become `inputVars`; its meaning is stated by `ImportProofs.EnterStepMeaning` |
| ImportModel.PredicateDeclare | nd4j-backends/nd4j-api-parent/nd4j-api/src/main/java/org/nd4j/linalg/api/ops/impl/controlflow/If.java:371-379 | one constant, variable or placeholder node of the predicate: its raw name is declared in the condition scope, the true body and the parent, and it goes to the skip set; `ImportProofs.PredicateDeclares` states what the loop declares through it |
| ImportModel.IdentityOp | nd4j-backends/nd4j-api-parent/nd4j-api/src/main/java/org/nd4j/linalg/api/ops/impl/controlflow/If.java:408-418 | one Identity node: fails on an unregistered op or the first input the parent lacks, else both scopes gain the inputs and one argument edge is recorded; `ImportProofs.IdentityOutcome` and `IdentityFailure` state when it fails |
| ImportModel.BodyOp | nd4j-backends/nd4j-api-parent/nd4j-api/src/main/java/org/nd4j/linalg/api/ops/impl/controlflow/If.java:463-484 | one body op: fails on an unregistered op or an input no scope has, else the inputs are resolved by `Resolve` and one argument edge is recorded; `ImportInvariant.BodyStep` states its effect |
| ImportModel.ResolveAll | nd4j-backends/nd4j-api-parent/nd4j-api/src/main/java/org/nd4j/linalg/api/ops/impl/controlflow/If.java:470-482 | resolves a body op's inputs left to right, copying parent variables into the condition scope; `ImportProofs.ResolveAllMeaning` states the result |
| ImportModel.CreateIfAbsent | nd4j-backends/nd4j-api-parent/nd4j-api/src/main/java/org/nd4j/linalg/api/ops/impl/controlflow/If.java:328 | `getVariable(name) == null ? var(name) : getVariable(name)` on the parent (also at 507 and 529); `ImportProofs.CreateIfAbsentMeaning` states its effect |
| ImportModel.CreateAll | nd4j-backends/nd4j-api-parent/nd4j-api/src/main/java/org/nd4j/linalg/api/ops/impl/controlflow/If.java:326-331 | resolve-or-create over an Enter node's normalised inputs, left to right, keeping the cursor; `ImportProofs.CreateAllMeaning` states its effect |
| ImportModel.FirstMissing | nd4j-backends/nd4j-api-parent/nd4j-api/src/main/java/org/nd4j/linalg/api/ops/impl/controlflow/If.java:412-413 | the first Identity input whose parent lookup comes back null, if any; `ImportProofs.FirstMissingMeaning` states what it finds |
| ImportModel.Begin | nd4j-backends/nd4j-api-parent/nd4j-api/src/main/java/org/nd4j/linalg/api/ops/impl/controlflow/If.java:288-289 | every import starts with fresh, empty condition and true-body scopes and no argument edges; the If's variables are kept until replaced |
| ImportModel.InitialSession | nd4j-backends/nd4j-api-parent/nd4j-api/src/main/java/org/nd4j/linalg/api/ops/impl/controlflow/If.java:280-282 | `initFromTensorFlow` starts with the cursor at 0, an empty skip set and the given parent |
| ImportModel.Finalize | nd4j-backends/nd4j-api-parent/nd4j-api/src/main/java/org/nd4j/linalg/api/ops/impl/controlflow/If.java:512-515 | the returned inputs become `inputVars`, the empty outputs `outputVars`, and both are registered in the parent; `ImportInvariant.ConcludeMeaning` states the result |
| ImportModel.BranchAfter | nd4j-backends/nd4j-api-parent/nd4j-api/src/main/java/org/nd4j/linalg/api/ops/impl/controlflow/If.java:133-138 | `trueBodyExecuted` after a series of `exectedTrueOrFalse` records; `ImportProofs.BranchAfterMeaning` states what it is |
| IfImport.ImportSession.constructor | nd4j-backends/nd4j-api-parent/nd4j-api/src/main/java/org/nd4j/linalg/api/ops/impl/controlflow/If.java:280-282 | a fresh session over the graph's nodes: cursor 0 (`new AtomicInteger(0)`), empty skip set (`new LinkedHashSet`), the parent as given |
| IfImport.ImportSession.ResolveOrCreate | nd4j-backends/nd4j-api-parent/nd4j-api/src/main/java/org/nd4j/linalg/api/ops/impl/controlflow/If.java:328 | `getVariable(input) == null ? var(input) : getVariable(input)`: the parent gains the name, and it is logged as created exactly when it was absent |
| IfImport.IfOp.constructor | nd4j-backends/nd4j-api-parent/nd4j-api/src/main/java/org/nd4j/linalg/api/ops/impl/controlflow/If.java:34-59 | a new If has imported nothing and `trueBodyExecuted` is null |
| IfImport.IfOp.ExecutedTrueOrFalse | nd4j-backends/nd4j-api-parent/nd4j-api/src/main/java/org/nd4j/linalg/api/ops/impl/controlflow/If.java:133-138 | `trueBodyExecuted` becomes `Some` of the recorded branch, as `BranchAfter` on one record says |
| IfImport.IfOp.OutputVariables | nd4j-backends/nd4j-api-parent/nd4j-api/src/main/java/org/nd4j/linalg/api/ops/impl/controlflow/If.java:143-145 | the dummy result is the only output, whatever the base name |
| IfImport.IfOp.OpName | nd4j-backends/nd4j-api-parent/nd4j-api/src/main/java/org/nd4j/linalg/api/ops/impl/controlflow/If.java:160-162 | the op name is `if` |
| IfImport.IfOp.OpType | nd4j-backends/nd4j-api-parent/nd4j-api/src/main/java/org/nd4j/linalg/api/ops/impl/controlflow/If.java:275-277 | an If is a conditional op |
| IfImport.IfOp.CalculateOutputShape | nd4j-backends/nd4j-api-parent/nd4j-api/src/main/java/org/nd4j/linalg/api/ops/impl/controlflow/If.java:545-547 | one output of shape 1 x 1, a single element |
| IfImport.IfOp.TensorflowName | nd4j-backends/nd4j-api-parent/nd4j-api/src/main/java/org/nd4j/linalg/api/ops/impl/controlflow/If.java:572-574 | the TensorFlow op name is `Cond`, which is none of the scan's markers or declaration tags, so a `Cond` node is treated like any other op |
| IfImport.IfOp.InitFromTensorFlow | nd4j-backends/nd4j-api-parent/nd4j-api/src/main/java/org/nd4j/linalg/api/ops/impl/controlflow/If.java:280-282 | with the corrected resume (see Findings), imports with a fresh session; fails exactly when `Import` does, with its error, and otherwise leaves the session and the If in `Import`'s result state |
| IfImport.IfOp.DoImport | nd4j-backends/nd4j-api-parent/nd4j-api/src/main/java/org/nd4j/linalg/api/ops/impl/controlflow/If.java:285-535 | the eight loops on the shared session end in exactly the state `Import` (corrected resume) computes, and fail exactly when it fails |
| IfImport.IfOp.ScanScopes | nd4j-backends/nd4j-api-parent/nd4j-api/src/main/java/org/nd4j/linalg/api/ops/impl/controlflow/If.java:312-395 | the Enter, Merge, predicate and Switch loops end in the state `Scopes` computes |
| IfImport.IfOp.ScanEnter | nd4j-backends/nd4j-api-parent/nd4j-api/src/main/java/org/nd4j/linalg/api/ops/impl/controlflow/If.java:312-334 | the Enter loop ends in the state `EnterPhase` computes |
| IfImport.IfOp.DeclareEnterInputs | nd4j-backends/nd4j-api-parent/nd4j-api/src/main/java/org/nd4j/linalg/api/ops/impl/controlflow/If.java:325-331 | the inputs are normalised in order, each is resolved or created in the parent, and both scopes gain them all |
| IfImport.IfOp.ScanMerge | nd4j-backends/nd4j-api-parent/nd4j-api/src/main/java/org/nd4j/linalg/api/ops/impl/controlflow/If.java:338-352 | the Merge loop ends in the state `MergePhase` computes, and `mergedCnt` counts the nodes it consumed |
| IfImport.IfOp.ScanPredicate | nd4j-backends/nd4j-api-parent/nd4j-api/src/main/java/org/nd4j/linalg/api/ops/impl/controlflow/If.java:356-380 | the predicate loop ends in the state `PredicatePhase` computes |
| IfImport.IfOp.ScanSwitch | nd4j-backends/nd4j-api-parent/nd4j-api/src/main/java/org/nd4j/linalg/api/ops/impl/controlflow/If.java:385-395 | the Switch loop ends in the state `SwitchPhase` computes, and `switchCnt` counts the nodes it consumed |
| IfImport.IfOp.ScanIdentity | nd4j-backends/nd4j-api-parent/nd4j-api/src/main/java/org/nd4j/linalg/api/ops/impl/controlflow/If.java:398-420 | the Identity loop fails exactly when `IdentityPhase` does and otherwise ends in its state |
| IfImport.IfOp.ImportIdentity | nd4j-backends/nd4j-api-parent/nd4j-api/src/main/java/org/nd4j/linalg/api/ops/impl/controlflow/If.java:408-418 | one Identity node: fails on an unregistered op or a missing parent variable, else both scopes gain the inputs and one argument edge is recorded |
| IfImport.IfOp.ScanBody | nd4j-backends/nd4j-api-parent/nd4j-api/src/main/java/org/nd4j/linalg/api/ops/impl/controlflow/If.java:424-491 | with the corrected resume (see Findings), the true-body loop fails exactly when `BodyPhase` does and otherwise ends in its state |
| IfImport.IfOp.ScanNested | nd4j-backends/nd4j-api-parent/nd4j-api/src/main/java/org/nd4j/linalg/api/ops/impl/controlflow/If.java:456-460 | with the corrected resume (see Findings): a nested If imports on the same session; on success the Enter node is marked consumed and the scan resumes where the nested import stopped |
| IfImport.IfOp.ScanBodyNode | nd4j-backends/nd4j-api-parent/nd4j-api/src/main/java/org/nd4j/linalg/api/ops/impl/controlflow/If.java:445-487 | one true-body node: a declaration is declared in the true body, any other node is imported as a body op; then it is consumed |
| IfImport.IfOp.ImportBodyOp | nd4j-backends/nd4j-api-parent/nd4j-api/src/main/java/org/nd4j/linalg/api/ops/impl/controlflow/If.java:463-484 | one body op: fails on an unregistered op or an input no scope has, else the condition scope gains the inputs copied from the parent and one argument edge is recorded |
| IfImport.IfOp.ScanReturns | nd4j-backends/nd4j-api-parent/nd4j-api/src/main/java/org/nd4j/linalg/api/ops/impl/controlflow/If.java:494-530 | the NextIteration loop, the registration and the Exit loop end in the state `Conclude` computes |
| IfImport.IfOp.ScanNextIterations | nd4j-backends/nd4j-api-parent/nd4j-api/src/main/java/org/nd4j/linalg/api/ops/impl/controlflow/If.java:498-509 | the NextIteration loop ends in the state `NextIterationPhase` computes and returns its variables in order |
| IfImport.IfOp.ScanExits | nd4j-backends/nd4j-api-parent/nd4j-api/src/main/java/org/nd4j/linalg/api/ops/impl/controlflow/If.java:518-530 | the Exit loop ends in the state `ExitPhase` computes |
| ImportProofs.CreateIfAbsentMeaning | nd4j-backends/nd4j-api-parent/nd4j-api/src/main/java/org/nd4j/linalg/api/ops/impl/controlflow/If.java:328 | resolve-or-create on one name: the parent gains it, it is logged exactly when it was absent, and the log stays duplicate-free |
| ImportProofs.CreateAllMeaning | nd4j-backends/nd4j-api-parent/nd4j-api/src/main/java/org/nd4j/linalg/api/ops/impl/controlflow/If.java:326-331 | resolve-or-create on a list: the parent gains every name, the log only grows, and what it gains is exactly the names that were absent |
| ImportProofs.EnterStepMeaning | nd4j-backends/nd4j-api-parent/nd4j-api/src/main/java/org/nd4j/linalg/api/ops/impl/controlflow/If.java:323-333 | one Enter node moves the cursor one on and adds its name to the skip set; the parent gains its normalised inputs, the created log gains exactly those the parent lacked, both scopes gain them, `inputVars` becomes them, and the step keeps the import invariant |
| ImportProofs.EnterConsumes | nd4j-backends/nd4j-api-parent/nd4j-api/src/main/java/org/nd4j/linalg/api/ops/impl/controlflow/If.java:312-334 | the Enter loop consumes exactly the maximal run of Enter nodes, each goes to the skip set, and `inputVars` ends as the last Enter node's inputs (unchanged if there is none) |
| ImportProofs.EnterDeclares | nd4j-backends/nd4j-api-parent/nd4j-api/src/main/java/org/nd4j/linalg/api/ops/impl/controlflow/If.java:325-331 | every Enter input is declared in the parent, the condition scope and the true body, and is created in the parent only when it was absent |
| ImportProofs.EnterKeeps | nd4j-backends/nd4j-api-parent/nd4j-api/src/main/java/org/nd4j/linalg/api/ops/impl/controlflow/If.java:312-334 | the Enter loop keeps the import invariant (`Keeps`) |
| ImportProofs.MergeConsumes | nd4j-backends/nd4j-api-parent/nd4j-api/src/main/java/org/nd4j/linalg/api/ops/impl/controlflow/If.java:338-352 | the Merge loop consumes exactly the maximal run of Merge nodes, each goes to the skip set |
| ImportProofs.MergeDeclares | nd4j-backends/nd4j-api-parent/nd4j-api/src/main/java/org/nd4j/linalg/api/ops/impl/controlflow/If.java:347-350 | each Merge node's normalised name is declared in the condition scope and the parent; nothing is created or registered |
| ImportProofs.MergeBody | nd4j-backends/nd4j-api-parent/nd4j-api/src/main/java/org/nd4j/linalg/api/ops/impl/controlflow/If.java:342-348 | the true body gains each Merge node's normalised name and that of the node ending the run, which is not consumed |
| ImportProofs.MergeKeeps | nd4j-backends/nd4j-api-parent/nd4j-api/src/main/java/org/nd4j/linalg/api/ops/impl/controlflow/If.java:338-352 | the Merge loop keeps the import invariant |
| ImportProofs.PredicateConsumes | nd4j-backends/nd4j-api-parent/nd4j-api/src/main/java/org/nd4j/linalg/api/ops/impl/controlflow/If.java:356-380 | the cursor ends one past the first LoopCond, or at the end of the list if there is none; every node passed goes to the skip set |
| ImportProofs.PredicateDeclares | nd4j-backends/nd4j-api-parent/nd4j-api/src/main/java/org/nd4j/linalg/api/ops/impl/controlflow/If.java:366-377 | only constant, variable and placeholder nodes before the LoopCond are declared, under their raw names, in the three scopes |
| ImportProofs.PredicateKeeps | nd4j-backends/nd4j-api-parent/nd4j-api/src/main/java/org/nd4j/linalg/api/ops/impl/controlflow/If.java:356-380 | the predicate loop keeps the import invariant |
| ImportProofs.SwitchRun | nd4j-backends/nd4j-api-parent/nd4j-api/src/main/java/org/nd4j/linalg/api/ops/impl/controlflow/If.java:385-395 | the Switch loop consumes exactly the maximal run of Switch nodes and changes nothing else; it keeps the invariant |
| ImportProofs.ResolveAllMeaning | nd4j-backends/nd4j-api-parent/nd4j-api/src/main/java/org/nd4j/linalg/api/ops/impl/controlflow/If.java:470-481 | a body op's inputs resolve exactly when every one is in some scope; the condition scope gains exactly the inputs in neither it nor the true body; a miss names an input found nowhere |
| ImportProofs.FirstMissingMeaning | nd4j-backends/nd4j-api-parent/nd4j-api/src/main/java/org/nd4j/linalg/api/ops/impl/controlflow/If.java:412-413 | the Identity lookup finds a null exactly when some input is not a parent variable, and names such an input |
| ImportProofs.IdentityOutcome | nd4j-backends/nd4j-api-parent/nd4j-api/src/main/java/org/nd4j/linalg/api/ops/impl/controlflow/If.java:398-420 | the Identity loop succeeds exactly when every node of the Identity run has a registered op and only parent variables as inputs |
| ImportProofs.IdentityFailure | nd4j-backends/nd4j-api-parent/nd4j-api/src/main/java/org/nd4j/linalg/api/ops/impl/controlflow/If.java:408-413 | a failed Identity loop names an unregistered op or a variable the parent lacks |
| ImportProofs.IdentityConsumes | nd4j-backends/nd4j-api-parent/nd4j-api/src/main/java/org/nd4j/linalg/api/ops/impl/controlflow/If.java:398-420 | a successful Identity loop consumes exactly the Identity run and changes nothing else in the session |
| ImportProofs.IdentityDeclares | nd4j-backends/nd4j-api-parent/nd4j-api/src/main/java/org/nd4j/linalg/api/ops/impl/controlflow/If.java:412-416 | both scopes gain every input of the Identity run |
| ImportProofs.IdentityEdges | nd4j-backends/nd4j-api-parent/nd4j-api/src/main/java/org/nd4j/linalg/api/ops/impl/controlflow/If.java:418 | one argument edge per Identity node is recorded in the true body, in order; the If's variables are untouched |
| ImportProofs.IdentityKeeps | nd4j-backends/nd4j-api-parent/nd4j-api/src/main/java/org/nd4j/linalg/api/ops/impl/controlflow/If.java:398-420 | a successful Identity loop keeps the import invariant |
| ImportProofs.NextIterationConsumes | nd4j-backends/nd4j-api-parent/nd4j-api/src/main/java/org/nd4j/linalg/api/ops/impl/controlflow/If.java:498-509 | the NextIteration loop consumes exactly the NextIteration run and returns the normalised names in order |
| ImportProofs.NextIterationDeclares | nd4j-backends/nd4j-api-parent/nd4j-api/src/main/java/org/nd4j/linalg/api/ops/impl/controlflow/If.java:506-507 | each returned name is resolved or created in the parent; the If and the registrations are untouched |
| ImportProofs.NextIterationKeeps | nd4j-backends/nd4j-api-parent/nd4j-api/src/main/java/org/nd4j/linalg/api/ops/impl/controlflow/If.java:498-509 | the NextIteration loop keeps the import invariant |
| ImportProofs.ExitConsumes | nd4j-backends/nd4j-api-parent/nd4j-api/src/main/java/org/nd4j/linalg/api/ops/impl/controlflow/If.java:518-530 | the Exit loop consumes exactly the run of Exit nodes |
| ImportProofs.ExitDeclares | nd4j-backends/nd4j-api-parent/nd4j-api/src/main/java/org/nd4j/linalg/api/ops/impl/controlflow/If.java:527-529 | each Exit node's normalised name is resolved or created in the parent; the If and the registrations are unchanged |
| ImportProofs.ExitKeeps | nd4j-backends/nd4j-api-parent/nd4j-api/src/main/java/org/nd4j/linalg/api/ops/impl/controlflow/If.java:518-530 | the Exit loop keeps the import invariant |
| ImportProofs.BranchAfterMeaning | nd4j-backends/nd4j-api-parent/nd4j-api/src/main/java/org/nd4j/linalg/api/ops/impl/controlflow/If.java:133-138 | `trueBodyExecuted` is null until the first record, then always the latest record; it never returns to null |
| ImportInvariant.ScopesKeeps | nd4j-backends/nd4j-api-parent/nd4j-api/src/main/java/org/nd4j/linalg/api/ops/impl/controlflow/If.java:312-395 | the phases before the Identity nodes keep the import invariant |
| ImportInvariant.ConcludeKeeps | nd4j-backends/nd4j-api-parent/nd4j-api/src/main/java/org/nd4j/linalg/api/ops/impl/controlflow/If.java:494-530 | the phases after the true body keep the import invariant |
| ImportInvariant.ConcludeMeaning | nd4j-backends/nd4j-api-parent/nd4j-api/src/main/java/org/nd4j/linalg/api/ops/impl/controlflow/If.java:494-530 | `inputVars` becomes the NextIteration names in order, `outputVars` becomes empty, exactly one registration of them is appended, and the cursor ends past the Exit run |
| ImportInvariant.BodyStops | nd4j-backends/nd4j-api-parent/nd4j-api/src/main/java/org/nd4j/linalg/api/ops/impl/controlflow/If.java:424-435 | a successful true-body loop stops at the end of the list or at a NextIteration node not in the skip set, which it does not consume |
| ImportInvariant.BodySkipGrows | nd4j-backends/nd4j-api-parent/nd4j-api/src/main/java/org/nd4j/linalg/api/ops/impl/controlflow/If.java:424-491 | a successful true-body loop, with either resume, only adds to the skip set, nested imports included |
| ImportInvariant.ImportSkipGrows | nd4j-backends/nd4j-api-parent/nd4j-api/src/main/java/org/nd4j/linalg/api/ops/impl/controlflow/If.java:285-535 | a successful import, with either resume, only adds to the shared skip set |
| ImportInvariant.BodyStep | nd4j-backends/nd4j-api-parent/nd4j-api/src/main/java/org/nd4j/linalg/api/ops/impl/controlflow/If.java:424-491 | one step of the true-body loop at a node it does not stop on fails or moves the cursor on with a larger skip set; a skipped node or a nested Enter leaves the true body and its edges untouched, a declaration not in the skip set is declared under its raw name, and a body op not in the skip set appends its one argument edge and is registered |
| ImportInvariant.BodyDeclares | nd4j-backends/nd4j-api-parent/nd4j-api/src/main/java/org/nd4j/linalg/api/ops/impl/controlflow/If.java:424-452 | the true-body loop, with either resume, leaves `inputVars` and `outputVars` untouched, only adds to the true body, and every name it adds is the raw name of a constant, variable or placeholder node it passed that was not already in the skip set |
| ImportInvariant.BodyEdges | nd4j-backends/nd4j-api-parent/nd4j-api/src/main/java/org/nd4j/linalg/api/ops/impl/controlflow/If.java:424-487 | the true-body loop, with either resume, keeps the old argument edges, and each edge it appends is that of a registered body op it passed (not a declaration, Enter or NextIteration) that was not already in the skip set |
| ImportInvariant.BodyNodeKeeps | nd4j-backends/nd4j-api-parent/nd4j-api/src/main/java/org/nd4j/linalg/api/ops/impl/controlflow/If.java:445-487 | one body node keeps the invariant: only parent variables are copied into the condition scope |
| ImportInvariant.NestedKeeps | nd4j-backends/nd4j-api-parent/nd4j-api/src/main/java/org/nd4j/linalg/api/ops/impl/controlflow/If.java:456-460 | a nested import, resumed where it stopped, keeps the outer If's invariant |
| ImportInvariant.ImportKeeps | nd4j-backends/nd4j-api-parent/nd4j-api/src/main/java/org/nd4j/linalg/api/ops/impl/controlflow/If.java:285-535 | a whole import with the corrected resume keeps the invariant: the cursor never moves back and stays within the list, the skip set, parent and logs only grow, every passed node is in the skip set, created variables stay distinct and the condition scope stays inside the parent |
| ImportInvariant.BodyKeeps | nd4j-backends/nd4j-api-parent/nd4j-api/src/main/java/org/nd4j/linalg/api/ops/impl/controlflow/If.java:424-491 | the true-body loop with the corrected resume keeps the invariant |
| ImportFindings.AsWrittenSkipsStopNode | nd4j-backends/nd4j-api-parent/nd4j-api/src/main/java/org/nd4j/linalg/api/ops/impl/controlflow/If.java:456-460 | as written, on an outer loop holding an inner loop, the outer If loses its NextIteration node: the cursor passes it, it is never in the skip set, and `inputVars` ends empty |
| ImportFindings.CorrectedKeepsStopNode | nd4j-backends/nd4j-api-parent/nd4j-api/src/main/java/org/nd4j/linalg/api/ops/impl/controlflow/If.java:456-460 | with the corrected resume the same graph returns the outer NextIteration node as the outer If's input variable |

## Left out

- The builder and copy constructors (If.java:65-125) and `doDiff`: they build SameDiff graphs and sub-functions through APIs that are not part of this model.
- `opHash`, `numOutputArguments`, `getDescriptor`, `assertValidForExecution`, `populateInputsAndOutputsFromSameDiff`, `initFromOnnx`, `onnxName` and `toString`: stubs, or constant/throwing code unrelated to the import.
- Logging, UUIDs, and the sub-function registrations `putSubFunction` (If.java:286-296). The false-body graph is created and never filled.
- The child op's own `initFromTensorFlow` and `setSameDiff` (If.java:408-410, 466-469): the op registry is reduced to a set of known tags.
- `TFGraphMapper` internals: name normalisation is an arbitrary function parameter.
- `SameDiff.var` on a name that is already declared is treated as set insertion. Variable shapes, initialisers and values are not modelled.
- Argument edges and registrations record names, not SDVariable objects. `addOutgoingFor` with the (always empty) outputs is kept only as the empty outgoing list of a registration.
- The state left behind after a failed import is not specified. Only the error is: the Java code throws part-way through.
- Case folding beyond ASCII in `equalsIgnoreCase`.
- `identityCnt` and `exitCnt` (If.java:398, 518): they are set to 0 and never updated or read, so they are not modelled. `mergedCnt` and `switchCnt` do count their runs and are returned by `ScanMerge` and `ScanSwitch`.
- `created` logs only the parent variables made by resolve-or-create (Enter, NextIteration and Exit loops). The Merge and predicate loops' `initWith.var` calls are folded into `parent`.
- Min.java and WhileDerivative.java: context only.
- The model's lemmas assume the cursor starts inside the list (`cursor <= |nodes|`), as it always does from `initFromTensorFlow`.
- ImportModel.EnterPhase, ImportModel.MergePhase, ImportModel.PredicatePhase, ImportModel.SwitchPhase, ImportModel.IdentityPhase, ImportModel.NextIterationPhase, ImportModel.ExitPhase: their own contracts state only that the cursor does not move back. What each loop consumes and declares is stated by the `...Consumes`, `...Declares` and `...Keeps` lemmas in `ImportProofs`.
- ImportModel.Scopes, ImportModel.Conclude, ImportModel.BodyPhase, ImportModel.Import: their own contracts state only cursor progress. What they do is stated by lemmas in `ImportInvariant`: `ScopesKeeps` and `ConcludeMeaning`; `BodyStops`, `BodyDeclares`, `BodyEdges` and `BodySkipGrows` for the true body; `ImportKeeps` and `ImportSkipGrows` for the whole import.
- ImportInvariant.BodyDeclares and ImportInvariant.BodyEdges: they bound what the true body gains from above (only names of declaration nodes and edges of registered body ops that the scan passed and that were not in the skip set). They do not state the converse, that every such node the outer scan itself visits is declared or recorded, because the nodes a nested import consumes are passed without being visited.
- ImportInvariant.ImportKeeps and ImportInvariant.BodyKeeps: proved only for the corrected resume. As written, the cursor can end one past the list, and a node is passed without entering the skip set (see Findings).

## Findings

| source | as written | input that shows it | evidently intended | confidence | as-written member | corrected member |
|---|---|---|---|---|---|---|
| nd4j-backends/nd4j-api-parent/nd4j-api/src/main/java/org/nd4j/linalg/api/ops/impl/controlflow/If.java:424, 456-460 | after a nested `doImport` returns, the outer true-body loop falls through to `skipSet.add` and then runs its increment, so it never looks at the node where the nested import stopped | nodes `Enter e0, LoopCond c0, Enter e1, LoopCond c1, NextIteration n1, Exit x1, NextIteration n0`: the outer If never sees `n0`, returns no variable, and `n0` is not in the skip set | the outer loop resumes at the node where the nested import stopped, so the outer If returns `n0` | not executed | ImportFindings.AsWrittenSkipsStopNode | ImportFindings.CorrectedKeepsStopNode |

The as-written behaviour is `ImportModel.Resume.PastStopNode`. The corrected one is
`AtStopNode`, which `IfImport` and the invariant lemmas use.
