/** The TensorFlow-graph import of an `If` op (If.doImport) as functions over values.

    The import walks the graph's flat node list once, left to right, with a cursor
    that it shares with every import nested in it, and runs eight phases in a fixed
    order: Enter, Merge, predicate (up to LoopCond), Switch, Identity, body (up to
    NextIteration), NextIteration and Exit. Every phase but the predicate one stops
    at the first node that does not match it, without consuming it.

    A `SameDiff` graph is used here only to declare and look up variable names, so
    each scope is a set of names: `parent` is the enclosing graph (`initWith`),
    `condition` the predicate graph (`scopeCondition`) and `body` the true-body graph.
    The name normalisation of `TFGraphMapper.getNodeName` and the operator registry
    are parameters (`Env`). Each phase is a tail-recursive function of the scan
    state, so that the loops of the imperative model can keep "what remains to be
    done" as their invariant. */
module ImportModel {
  import opened OpTags

  datatype Option<T> = None | Some(value: T)

  /** One node of the imported graph: its name, operator tag and input references. */
  datatype Node = Node(name: string, op: string, inputs: seq<string>)

  /** The collaborators the import consults: name normalisation and the set of
      operator tags the operator registry can instantiate. */
  datatype Env = Env(normalize: string -> string, registry: set<string>)

  /** Why an import aborts: an operator tag without a registered op, or a parent
      variable that is looked up, found absent, and then dereferenced. */
  datatype ImportError = UnknownOp(op: string) | MissingVariable(name: string)

  datatype Result<T> = Ok(value: T) | Fail(error: ImportError)

  /** An argument edge: the op created for a node and the names of its argument variables. */
  datatype Edge = Edge(op: string, args: seq<string>)

  /** The args and outgoing edges an imported If registers in its parent graph. */
  datatype Registration = Registration(args: seq<string>, outgoing: seq<string>)

  /** State shared by an import and every import nested in it: the cursor, the skip
      set, the parent graph's variables, the log of variables the import created in
      the parent (in creation order) and the If ops registered in the parent. */
  datatype Session = Session(cursor: nat, skip: set<string>, parent: set<string>,
                             created: seq<string>, registrations: seq<Registration>)

  /** State of one If: its condition and true-body scopes, the argument edges
      recorded in the true body, and its input and output variables. */
  datatype Frame = Frame(condition: set<string>, body: set<string>, bodyArgs: seq<Edge>,
                         inputVars: seq<string>, outputVars: seq<string>)

  datatype Scan = Scan(s: Session, f: Frame)

  /** Where the outer body scan goes on after a nested import: at the node where the
      nested import stopped, or one past it (as If.java:312-491 is written). */
  datatype Resume = AtStopNode | PastStopNode

  /** The frame of an If made by the no-argument constructor. */
  const EmptyFrame := Frame({}, {}, [], [], [])

  function Elems(xs: seq<string>): set<string> {
    set x | x in xs
  }

  lemma ElemsSnoc(xs: seq<string>, x: string)
    ensures Elems(xs + [x]) == Elems(xs) + {x}
  {
    assert forall y :: y in xs + [x] <==> y in xs || y == x;
  }

  predicate NoDup(xs: seq<string>) {
    forall i, j :: 0 <= i < j < |xs| ==> xs[i] != xs[j]
  }

  function Normalized(env: Env, refs: seq<string>): seq<string> {
    seq(|refs|, i requires 0 <= i < |refs| => env.normalize(refs[i]))
  }

  /** Nodes left to scan from cursor `c`; the measure every phase decreases. */
  function Left(nodes: seq<Node>, c: nat): nat {
    if c < |nodes| then |nodes| - c else 0
  }

  /** Consume one node: add its name to the skip set and move the cursor past it. */
  function Advance(sc: Scan, name: string): Scan {
    sc.(s := sc.s.(cursor := sc.s.cursor + 1, skip := sc.s.skip + {name}))
  }

  // ---------------------------------------------------------------- variables

  /** `getVariable(name) == null ? var(name, ...) : getVariable(name)` on the parent. */
  function CreateIfAbsent(s: Session, name: string): Session {
    if name in s.parent then s else s.(parent := s.parent + {name}, created := s.created + [name])
  }

  /** Resolve-or-create every name, left to right. */
  function CreateAll(s: Session, names: seq<string>): (r: Session)
    decreases |names|
    ensures r.cursor == s.cursor
  {
    if names == [] then s else CreateAll(CreateIfAbsent(s, names[0]), names[1..])
  }

  /** One step of `CreateAll`: the first name, then the rest. */
  lemma CreateAllStep(s: Session, names: seq<string>, name: string, rest: seq<string>)
    requires names == [name] + rest
    ensures CreateAll(s, names) == CreateAll(CreateIfAbsent(s, name), rest)
  {
    assert names[0] == name && names[1..] == rest;
  }

  /** How the body scan resolves one input name (If.java:473-481): the condition
      scope first, then the true-body scope, else the parent's variable is copied
      into the condition scope. The scalar-literal branch is written as in the
      source; the tests before it are complementary, so it is never taken. */
  datatype Resolution = FromCondition | FromBody | CopiedFromParent | ScalarLiteral | Missing

  function Resolve(name: string, condition: set<string>, body: set<string>, parent: set<string>): (r: Resolution)
    ensures r == FromCondition <==> name in condition
    ensures r == FromBody <==> name !in condition && name in body
    ensures r == CopiedFromParent <==> name !in condition && name !in body && name in parent
    ensures r == Missing <==> name !in condition && name !in body && name !in parent
    ensures r != ScalarLiteral
  {
    if name in condition then FromCondition
    else if name !in body then (if name in parent then CopiedFromParent else Missing)
    else if name in body then FromBody
    else ScalarLiteral
  }

  /** Resolve a body op's inputs left to right; the result is the new condition scope. */
  function ResolveAll(names: seq<string>, condition: set<string>, body: set<string>, parent: set<string>): Result<set<string>>
    decreases |names|
  {
    if names == [] then Ok(condition)
    else
      var r0 := Resolve(names[0], condition, body, parent);
      if r0 == Missing then Fail(MissingVariable(names[0]))
      else ResolveAll(names[1..], if r0 == CopiedFromParent then condition + {names[0]} else condition, body, parent)
  }

  /** The first name that `pool` lacks, if any. */
  function FirstMissing(names: seq<string>, pool: set<string>): Option<string>
    decreases |names|
  {
    if names == [] then None
    else if names[0] !in pool then Some(names[0])
    else FirstMissing(names[1..], pool)
  }

  // ---------------------------------------------------------------- phases

  /** Enter phase (If.java:312-334). */
  function EnterPhase(env: Env, nodes: seq<Node>, sc: Scan): (r: Scan)
    decreases Left(nodes, sc.s.cursor)
    ensures r.s.cursor >= sc.s.cursor
  {
    if sc.s.cursor < |nodes| && IsEnter(nodes[sc.s.cursor].op) then
      EnterPhase(env, nodes, EnterStep(env, nodes[sc.s.cursor], sc))
    else sc
  }

  /** One Enter node: each input is resolved or created in the parent and declared
      in both scopes; the node's inputs become the If's input variables. */
  function EnterStep(env: Env, n: Node, sc: Scan): Scan {
    var vars := Normalized(env, n.inputs);
    var s := CreateAll(sc.s.(skip := sc.s.skip + {n.name}), vars);
    Scan(s.(cursor := s.cursor + 1),
         sc.f.(condition := sc.f.condition + Elems(vars), body := sc.f.body + Elems(vars), inputVars := vars))
  }

  /** Merge phase (If.java:338-352): each Merge node is declared in the true body and
      mirrored into the condition scope and the parent; the first non-Merge node is
      declared in the true body only, and is not consumed. */
  function MergePhase(env: Env, nodes: seq<Node>, sc: Scan): (r: Scan)
    decreases Left(nodes, sc.s.cursor)
    ensures r.s.cursor >= sc.s.cursor
  {
    if sc.s.cursor < |nodes| then
      var n := nodes[sc.s.cursor];
      var v := env.normalize(n.name);
      if IsMerge(n.op) then
        MergePhase(env, nodes, Advance(Scan(sc.s.(parent := sc.s.parent + {v}),
                                            sc.f.(condition := sc.f.condition + {v}, body := sc.f.body + {v})), n.name))
      else sc.(f := sc.f.(body := sc.f.body + {v}))
    else sc
  }

  /** Predicate phase (If.java:356-380): consume nodes up to and including the first
      LoopCond; constants, variables and placeholders are declared, under their raw
      names, in the condition scope, the true body and the parent. */
  function PredicatePhase(nodes: seq<Node>, sc: Scan): (r: Scan)
    decreases Left(nodes, sc.s.cursor)
    ensures r.s.cursor >= sc.s.cursor
    ensures sc.s.cursor < |nodes| ==> r.s.cursor > sc.s.cursor
  {
    if sc.s.cursor < |nodes| then
      var n := nodes[sc.s.cursor];
      if IsLoopCond(n.op) then Advance(sc, n.name)
      else if IsDeclaration(n.op) then PredicatePhase(nodes, PredicateDeclare(sc, n.name))
      else PredicatePhase(nodes, Advance(sc, n.name))
    else sc
  }

  /** A constant, variable or placeholder node of the predicate phase: declared under
      its raw name in the condition scope, the true body and the parent, then consumed. */
  function PredicateDeclare(sc: Scan, name: string): Scan {
    Advance(Scan(sc.s.(parent := sc.s.parent + {name}),
                 sc.f.(condition := sc.f.condition + {name}, body := sc.f.body + {name})), name)
  }

  /** Switch phase (If.java:385-395): a run of Switch nodes is only consumed. */
  function SwitchPhase(nodes: seq<Node>, sc: Scan): (r: Scan)
    decreases Left(nodes, sc.s.cursor)
    ensures r.s.cursor >= sc.s.cursor
  {
    if sc.s.cursor < |nodes| && IsSwitch(nodes[sc.s.cursor].op) then
      SwitchPhase(nodes, Advance(sc, nodes[sc.s.cursor].name))
    else sc
  }

  /** Identity phase (If.java:398-420). */
  function IdentityPhase(env: Env, nodes: seq<Node>, sc: Scan): (r: Result<Scan>)
    decreases Left(nodes, sc.s.cursor)
    ensures r.Ok? ==> r.value.s.cursor >= sc.s.cursor
  {
    if sc.s.cursor < |nodes| && IsIdentity(nodes[sc.s.cursor].op) then
      var n := nodes[sc.s.cursor];
      match IdentityOp(env, n, sc.s.parent, sc.f)
      case Fail(e) => Fail(e)
      case Ok(f) => IdentityPhase(env, nodes, Advance(Scan(sc.s, f), n.name))
    else Ok(sc)
  }

  /** One Identity node: its op must be registered; every input must name a parent
      variable, which is mirrored into both scopes and recorded as an argument. */
  function IdentityOp(env: Env, n: Node, parent: set<string>, f: Frame): Result<Frame> {
    if n.op !in env.registry then Fail(UnknownOp(n.op))
    else
      var vars := Normalized(env, n.inputs);
      match FirstMissing(vars, parent)
      case Some(v) => Fail(MissingVariable(v))
      case None =>
        Ok(f.(condition := f.condition + Elems(vars), body := f.body + Elems(vars),
              bodyArgs := f.bodyArgs + [Edge(n.name, vars)]))
  }

  /** One body op that is neither a declaration nor a nested Enter (If.java:463-484):
      its op must be registered, and each input is resolved by `Resolve`. */
  function BodyOp(env: Env, n: Node, parent: set<string>, f: Frame): Result<Frame> {
    if n.op !in env.registry then Fail(UnknownOp(n.op))
    else
      var vars := Normalized(env, n.inputs);
      match ResolveAll(vars, f.condition, f.body, parent)
      case Fail(e) => Fail(e)
      case Ok(condition) => Ok(f.(condition := condition, bodyArgs := f.bodyArgs + [Edge(n.name, vars)]))
  }

  /** The whole import of one If (If.java:285-535), starting at the session's cursor.
      The If's previous input and output variables survive until they are replaced. */
  function Import(env: Env, nodes: seq<Node>, resume: Resume, s: Session, prior: Frame): (r: Result<Scan>)
    decreases Left(nodes, s.cursor), 1, 0
    ensures r.Ok? ==> r.value.s.cursor >= s.cursor
    ensures r.Ok? && s.cursor < |nodes| ==> r.value.s.cursor > s.cursor
  {
    match IdentityPhase(env, nodes, Scopes(env, nodes, Begin(s, prior)))
    case Fail(e) => Fail(e)
    case Ok(identified) =>
      match BodyPhase(env, nodes, resume, s.cursor, identified)
      case Fail(e) => Fail(e)
      case Ok(bodied) => Ok(Conclude(env, nodes, bodied))
  }

  /** The phases before the Identity nodes (If.java:312-395): Enter, Merge, the
      predicate up to its LoopCond, and Switch. */
  function Scopes(env: Env, nodes: seq<Node>, sc: Scan): (r: Scan)
    ensures r.s.cursor >= sc.s.cursor
  {
    SwitchPhase(nodes, PredicatePhase(nodes, MergePhase(env, nodes, EnterPhase(env, nodes, sc))))
  }

  /** The phases after the true body (If.java:494-530): NextIteration, the
      registration of the returned variables, and Exit. */
  function Conclude(env: Env, nodes: seq<Node>, sc: Scan): (r: Scan)
    ensures r.s.cursor >= sc.s.cursor
  {
    var (advanced, returned) := NextIterationPhase(env, nodes, sc, []);
    ExitPhase(env, nodes, Finalize(advanced, returned))
  }

  /** Fresh condition and true-body scopes for an If whose variables are `prior`'s. */
  function Begin(s: Session, prior: Frame): Scan {
    Scan(s, Frame({}, {}, [], prior.inputVars, prior.outputVars))
  }

  /** Body phase (If.java:424-491): nodes already in the skip set are passed over;
      the phase stops, without consuming it, at a NextIteration not in the skip set;
      a nested Enter starts a nested import on the same session. `start` is where
      the enclosing import began; the body always begins past it. */
  function BodyPhase(env: Env, nodes: seq<Node>, resume: Resume, start: nat, sc: Scan): (r: Result<Scan>)
    requires sc.s.cursor > start || sc.s.cursor >= |nodes|
    decreases Left(nodes, start), 0, Left(nodes, sc.s.cursor)
    ensures r.Ok? ==> r.value.s.cursor >= sc.s.cursor
  {
    if sc.s.cursor >= |nodes| then Ok(sc)
    else
      var n := nodes[sc.s.cursor];
      if n.name in sc.s.skip then
        BodyPhase(env, nodes, resume, start, sc.(s := sc.s.(cursor := sc.s.cursor + 1)))
      else if IsNextIteration(n.op) then Ok(sc)
      // The source tests for a declaration (If.java:449) before Enter (If.java:456);
      // `TagsExclusive` makes the order irrelevant.
      else if IsEnter(n.op) then
        (match Import(env, nodes, resume, sc.s, EmptyFrame)
         case Fail(e) => Fail(e)
         case Ok(nested) =>
           BodyPhase(env, nodes, resume, start, Scan(AfterNested(resume, nested.s, n.name), sc.f)))
      else
        (match BodyNode(env, n, sc)
         case Fail(e) => Fail(e)
         case Ok(next) => BodyPhase(env, nodes, resume, start, next))
  }

  /** A true-body node that is neither consumed, a NextIteration nor an Enter
      (If.java:445-484): a declaration is declared in the true body, any other node
      is imported as a body op; either way it is consumed. */
  function BodyNode(env: Env, n: Node, sc: Scan): (r: Result<Scan>)
    ensures r.Ok? ==> r.value.s.cursor == sc.s.cursor + 1
  {
    if IsDeclaration(n.op) then Ok(Advance(sc.(f := sc.f.(body := sc.f.body + {n.name})), n.name))
    else
      match BodyOp(env, n, sc.s.parent, sc.f)
      case Fail(e) => Fail(e)
      case Ok(f) => Ok(Advance(Scan(sc.s, f), n.name))
  }

  /** The session after a nested import returns to the outer body scan, which adds
      the Enter node's name to the skip set. */
  function AfterNested(resume: Resume, s: Session, name: string): (r: Session)
    ensures r.cursor >= s.cursor
  {
    s.(cursor := if resume == PastStopNode then s.cursor + 1 else s.cursor, skip := s.skip + {name})
  }

  /** NextIteration phase (If.java:494-509): each node's parent variable is resolved
      or created and appended to `returned`. */
  function NextIterationPhase(env: Env, nodes: seq<Node>, sc: Scan, returned: seq<string>): (r: (Scan, seq<string>))
    decreases Left(nodes, sc.s.cursor)
    ensures r.0.s.cursor >= sc.s.cursor
  {
    if sc.s.cursor < |nodes| && IsNextIteration(nodes[sc.s.cursor].op) then
      var n := nodes[sc.s.cursor];
      var v := env.normalize(n.name);
      var next := Advance(sc, n.name);
      NextIterationPhase(env, nodes, next.(s := CreateIfAbsent(next.s, v)), returned + [v])
    else (sc, returned)
  }

  /** If.java:512-515: the returned inputs become the input variables, the (empty)
      returned outputs the output variables, and both are registered in the parent. */
  function Finalize(sc: Scan, returned: seq<string>): Scan {
    Scan(sc.s.(registrations := sc.s.registrations + [Registration(returned, [])]),
         sc.f.(inputVars := returned, outputVars := []))
  }

  /** Exit phase (If.java:518-530): each node's parent variable is resolved or created. */
  function ExitPhase(env: Env, nodes: seq<Node>, sc: Scan): (r: Scan)
    decreases Left(nodes, sc.s.cursor)
    ensures r.s.cursor >= sc.s.cursor
  {
    if sc.s.cursor < |nodes| && IsExit(nodes[sc.s.cursor].op) then
      var n := nodes[sc.s.cursor];
      var next := Advance(sc, n.name);
      ExitPhase(env, nodes, next.(s := CreateIfAbsent(next.s, env.normalize(n.name))))
    else sc
  }

  /** `initFromTensorFlow` (If.java:280-282): an import on a fresh cursor and skip set. */
  function InitialSession(parent: set<string>): Session {
    Session(0, {}, parent, [], [])
  }

  // ---------------------------------------------------------------- branch taken

  /** `trueBodyExecuted` after a series of `exectedTrueOrFalse` calls, each recording
      whether the true branch ran (If.java:133-138); `None` is Java's `null`. */
  function BranchAfter(initial: Option<bool>, records: seq<bool>): Option<bool>
    decreases |records|
  {
    if records == [] then initial else BranchAfter(Some(records[0]), records[1..])
  }
}
