/** The If op and its TensorFlow import as imperative code: the shared cursor and
    skip set live in an `ImportSession` that every nested import updates in place,
    and each phase of `doImport` is a loop over the session's cursor. Every method
    is proved equal to the matching function of `ImportModel`. */
module IfImport {
  import opened OpTags
  import opened ImportModel

  /** `Op.Type`: the kind of op an If reports; the other kinds are not part of this model. */
  datatype OpKind = Conditional | OtherKind

  /** What an import shares with every import nested in it: the graph's node list,
      the cursor (`currIndex`), the skip set (`skipSet`) and the parent graph
      (`initWith`), seen as the names it declares, the names the import created in
      it and the If ops registered in it. */
  class ImportSession {
    const nodes: seq<Node>
    var cursor: nat
    var skip: set<string>
    var parent: set<string>
    var created: seq<string>
    var registrations: seq<Registration>

    function Model(): Session
      reads this
    {
      Session(cursor, skip, parent, created, registrations)
    }

    /** A fresh cursor at 0 and an empty skip set over `nodes`, in a parent graph
        that already declares `parent`. */
    constructor (nodes: seq<Node>, parent: set<string>)
      ensures this.nodes == nodes && Model() == InitialSession(parent)
    {
      this.nodes := nodes;
      cursor := 0;
      skip := {};
      this.parent := parent;
      created := [];
      registrations := [];
    }

    /** `getVariable(name)`, and `var(name, ...)` when that is null: the name is
        declared in the parent graph and, if it was absent, logged as created. */
    method ResolveOrCreate(name: string)
      modifies this`parent, this`created
      ensures Model() == CreateIfAbsent(old(Model()), name)
    {
      if name !in parent {
        parent := parent + {name};
        created := created + [name];
      }
    }
  }

  /** An If op: its predicate scope (`predicateExecution`), its true-body scope
      (`loopBodyExecution`), the argument edges recorded in the true body, its
      input and output variables, and which branch last ran (`null` is `None`). */
  class IfOp {
    var condition: set<string>
    var body: set<string>
    var bodyArgs: seq<Edge>
    var inputVars: seq<string>
    var outputVars: seq<string>
    var trueBodyExecuted: Option<bool>
    var dummyResult: Option<string>

    function Model(): Frame
      reads this
    {
      Frame(condition, body, bodyArgs, inputVars, outputVars)
    }

    /** The no-argument constructor: nothing imported, no branch run yet. */
    constructor ()
      ensures Model() == EmptyFrame && trueBodyExecuted == None && dummyResult == None
    {
      dummyResult := None;
      condition, body, bodyArgs := {}, {}, [];
      inputVars, outputVars := [], [];
      trueBodyExecuted := None;
    }

    /** `exectedTrueOrFalse`: record which branch ran. */
    method ExecutedTrueOrFalse(trueBranch: bool)
      modifies this`trueBodyExecuted
      ensures trueBodyExecuted == Some(trueBranch)
      ensures trueBodyExecuted == BranchAfter(old(trueBodyExecuted), [trueBranch])
    {
      if trueBranch {
        trueBodyExecuted := Some(true);
      } else {
        trueBodyExecuted := Some(false);
      }
    }

    /** `outputVariables`: the dummy result is the If's only output, whatever the base name. */
    function OutputVariables(baseName: string): (r: seq<Option<string>>)
      reads this
      ensures |r| == 1 && r[0] == dummyResult
    {
      [dummyResult]
    }

    /** `opName`. */
    function OpName(): (r: string)
      ensures r == "if"
    {
      "if"
    }

    /** `opType`: an If is a conditional op. */
    function OpType(): (r: OpKind)
      ensures r == Conditional
    {
      Conditional
    }

    /** `calculateOutputShape`: one output of shape 1 x 1, a single element. */
    function CalculateOutputShape(): (r: seq<seq<int>>)
      ensures |r| == 1 && |r[0]| == 2 && r[0][0] == 1 && r[0][1] == 1
    {
      [[1, 1]]
    }

    /** `tensorflowName`: the TensorFlow op an If is imported from. It is none of the
        scan's markers or declaration tags, so a `Cond` node is treated like any other op. */
    function TensorflowName(): (r: string)
      ensures r == "Cond" && Roles(r) == 0
    {
      assert Lower("Cond"[0]) != Lower("Exit"[0]);
      "Cond"
    }

    /** `initFromTensorFlow`: import from the start of `nodes` with a fresh session. */
    method InitFromTensorFlow(env: Env, nodes: seq<Node>, parent: set<string>) returns (s: ImportSession, err: Option<ImportError>)
      modifies this`condition, this`body, this`bodyArgs, this`inputVars, this`outputVars
      ensures fresh(s) && s.nodes == nodes
      ensures var r := Import(env, nodes, AtStopNode, InitialSession(parent), old(Model()));
              && (err.None? <==> r.Ok?)
              && (r.Fail? ==> err == Some(r.error))
              && (r.Ok? ==> s.Model() == r.value.s && Model() == r.value.f)
    {
      s := new ImportSession(nodes, parent);
      err := DoImport(env, s);
    }

    /** `doImport`: the eight phases in order, on the session's cursor. */
    method DoImport(env: Env, s: ImportSession) returns (err: Option<ImportError>)
      modifies this`condition, this`body, this`bodyArgs, this`inputVars, this`outputVars, s
      decreases Left(s.nodes, s.cursor), 1, 0
      ensures var r := Import(env, s.nodes, AtStopNode, old(s.Model()), old(Model()));
              && (err.None? <==> r.Ok?)
              && (r.Fail? ==> err == Some(r.error))
              && (r.Ok? ==> s.Model() == r.value.s && Model() == r.value.f)
    {
      ghost var start := s.cursor;
      condition, body, bodyArgs := {}, {}, [];
      ScanScopes(env, s);
      err := ScanIdentity(env, s);
      if err.Some? {
        return;
      }
      err := ScanBody(env, s, start);
      if err.Some? {
        return;
      }
      ScanReturns(env, s);
    }

    /** The phases before the Identity nodes (If.java:312-395). */
    method ScanScopes(env: Env, s: ImportSession)
      modifies this`condition, this`body, this`inputVars, s
      ensures Scan(s.Model(), Model()) == Scopes(env, s.nodes, Scan(old(s.Model()), old(Model())))
    {
      ScanEnter(env, s);
      var mergedCnt := ScanMerge(env, s);
      ScanPredicate(s);
      var switchCnt := ScanSwitch(s);
    }

    /** The phases after the true body (If.java:494-530): the NextIteration nodes
        name the returned variables, which become the If's input variables and are
        registered in the parent together with the (empty) outputs; then Exit. */
    method ScanReturns(env: Env, s: ImportSession)
      modifies this`inputVars, this`outputVars, s
      ensures Scan(s.Model(), Model()) == Conclude(env, s.nodes, Scan(old(s.Model()), old(Model())))
    {
      var returnInputs := ScanNextIterations(env, s);
      outputVars := [];
      inputVars := returnInputs;
      s.registrations := s.registrations + [Registration(inputVars, outputVars)];
      ScanExits(env, s);
    }

    /** Enter phase (If.java:312-334). */
    method ScanEnter(env: Env, s: ImportSession)
      modifies this`condition, this`body, this`inputVars, s
      ensures Scan(s.Model(), Model()) == EnterPhase(env, s.nodes, Scan(old(s.Model()), old(Model())))
    {
      ghost var target := EnterPhase(env, s.nodes, Scan(s.Model(), Model()));
      while s.cursor < |s.nodes|
        invariant EnterPhase(env, s.nodes, Scan(s.Model(), Model())) == target
        decreases |s.nodes| - s.cursor
      {
        var node := s.nodes[s.cursor];
        if !IsEnter(node.op) {
          break;
        }
        ghost var pre := Scan(s.Model(), Model());
        s.skip := s.skip + {node.name};
        var vars := DeclareEnterInputs(env, node, s);
        inputVars := vars;
        s.cursor := s.cursor + 1;
        assert Scan(s.Model(), Model()) == EnterStep(env, node, pre);
      }
    }

    /** The inputs of one Enter node (If.java:325-331): each is resolved or created in
        the parent and declared in the condition and true-body scopes. */
    method DeclareEnterInputs(env: Env, node: Node, s: ImportSession) returns (vars: seq<string>)
      modifies this`condition, this`body, s`parent, s`created
      ensures vars == Normalized(env, node.inputs)
      ensures s.Model() == CreateAll(old(s.Model()), vars)
      ensures condition == old(condition) + Elems(vars) && body == old(body) + Elems(vars)
    {
      ghost var names := Normalized(env, node.inputs);
      vars := [];
      var e := 0;
      while e < |node.inputs|
        invariant 0 <= e <= |node.inputs| && vars == names[..e]
        invariant CreateAll(s.Model(), names[e..]) == CreateAll(old(s.Model()), names)
        invariant condition == old(condition) + Elems(vars) && body == old(body) + Elems(vars)
      {
        var input := env.normalize(node.inputs[e]);
        assert names[e..] == [input] + names[e + 1..];
        CreateAllStep(s.Model(), names[e..], input, names[e + 1..]);
        s.ResolveOrCreate(input);
        condition := condition + {input};
        body := body + {input};
        ElemsSnoc(vars, input);
        vars := vars + [input];
        e := e + 1;
      }
      assert names[e..] == [] && vars == names;
    }

    /** Merge phase (If.java:338-352); `mergedCnt` is the length of the run. */
    method ScanMerge(env: Env, s: ImportSession) returns (mergedCnt: nat)
      modifies this`condition, this`body, s`skip, s`cursor, s`parent
      ensures Scan(s.Model(), Model()) == MergePhase(env, s.nodes, Scan(old(s.Model()), old(Model())))
      ensures mergedCnt == s.cursor - old(s.cursor)
    {
      mergedCnt := 0;
      while s.cursor < |s.nodes|
        invariant MergePhase(env, s.nodes, Scan(s.Model(), Model())) == MergePhase(env, s.nodes, Scan(old(s.Model()), old(Model())))
        invariant mergedCnt == s.cursor - old(s.cursor)
        decreases |s.nodes| - s.cursor
      {
        var node := s.nodes[s.cursor];
        if !IsMerge(node.op) {
          body := body + {env.normalize(node.name)};
          break;
        }
        s.skip := s.skip + {node.name};
        var v := env.normalize(node.name);
        body := body + {v};
        condition := condition + {v};
        s.parent := s.parent + {v};
        mergedCnt := mergedCnt + 1;
        s.cursor := s.cursor + 1;
      }
    }

    /** Predicate phase (If.java:356-380): up to and including the first LoopCond. */
    method ScanPredicate(s: ImportSession)
      modifies this`condition, this`body, s`skip, s`cursor, s`parent
      ensures Scan(s.Model(), Model()) == PredicatePhase(s.nodes, Scan(old(s.Model()), old(Model())))
    {
      while s.cursor < |s.nodes|
        invariant PredicatePhase(s.nodes, Scan(s.Model(), Model())) == PredicatePhase(s.nodes, Scan(old(s.Model()), old(Model())))
        decreases |s.nodes| - s.cursor
      {
        var node := s.nodes[s.cursor];
        ghost var pre := Scan(s.Model(), Model());
        if IsLoopCond(node.op) {
          s.skip := s.skip + {node.name};
          s.cursor := s.cursor + 1;
          break;
        }
        if IsDeclaration(node.op) {
          condition := condition + {node.name};
          body := body + {node.name};
          s.parent := s.parent + {node.name};
        }
        s.skip := s.skip + {node.name};
        s.cursor := s.cursor + 1;
        assert PredicatePhase(s.nodes, pre) == PredicatePhase(s.nodes, Scan(s.Model(), Model()));
      }
    }

    /** Switch phase (If.java:385-395); `switchCnt` is the length of the run. */
    method ScanSwitch(s: ImportSession) returns (switchCnt: nat)
      modifies s
      ensures Scan(s.Model(), Model()) == SwitchPhase(s.nodes, Scan(old(s.Model()), Model()))
      ensures switchCnt == s.cursor - old(s.cursor)
    {
      switchCnt := 0;
      while s.cursor < |s.nodes|
        invariant SwitchPhase(s.nodes, Scan(s.Model(), Model())) == SwitchPhase(s.nodes, Scan(old(s.Model()), Model()))
        invariant switchCnt == s.cursor - old(s.cursor)
        decreases |s.nodes| - s.cursor
      {
        var node := s.nodes[s.cursor];
        if !IsSwitch(node.op) {
          break;
        }
        switchCnt := switchCnt + 1;
        s.skip := s.skip + {node.name};
        s.cursor := s.cursor + 1;
      }
    }

    /** Identity phase (If.java:398-420). */
    method ScanIdentity(env: Env, s: ImportSession) returns (err: Option<ImportError>)
      modifies this`condition, this`body, this`bodyArgs, s`skip, s`cursor
      ensures var r := IdentityPhase(env, s.nodes, Scan(old(s.Model()), old(Model())));
              && (err.None? <==> r.Ok?)
              && (r.Fail? ==> err == Some(r.error))
              && (r.Ok? ==> Scan(s.Model(), Model()) == r.value)
    {
      err := None;
      while s.cursor < |s.nodes|
        invariant IdentityPhase(env, s.nodes, Scan(s.Model(), Model())) == IdentityPhase(env, s.nodes, Scan(old(s.Model()), old(Model())))
        invariant err == None
        decreases |s.nodes| - s.cursor
      {
        var node := s.nodes[s.cursor];
        if !IsIdentity(node.op) {
          break;
        }
        err := ImportIdentity(env, node, s.parent);
        if err.Some? {
          return;
        }
        s.skip := s.skip + {node.name};
        s.cursor := s.cursor + 1;
      }
    }

    /** One Identity node (If.java:408-418): instantiate its op and bind its inputs,
        which must be variables of the parent graph. */
    method ImportIdentity(env: Env, node: Node, parent: set<string>) returns (err: Option<ImportError>)
      modifies this`condition, this`body, this`bodyArgs
      ensures var r := IdentityOp(env, node, parent, old(Model()));
              && (err.None? <==> r.Ok?)
              && (r.Fail? ==> err == Some(r.error))
              && (r.Ok? ==> Model() == r.value)
    {
      if node.op !in env.registry {
        return Some(UnknownOp(node.op));
      }
      ghost var names := Normalized(env, node.inputs);
      ghost var f0 := Model();
      var variables: seq<string> := [];
      var i := 0;
      while i < |node.inputs|
        invariant 0 <= i <= |node.inputs| && variables == names[..i]
        invariant FirstMissing(names[i..], parent) == FirstMissing(names, parent)
        invariant condition == f0.condition + Elems(variables) && body == f0.body + Elems(variables)
        invariant bodyArgs == f0.bodyArgs
      {
        var name := env.normalize(node.inputs[i]);
        assert names[i..][0] == name && names[i..][1..] == names[i + 1..];
        if name !in parent {
          return Some(MissingVariable(name));
        }
        condition := condition + {name};
        body := body + {name};
        ElemsSnoc(variables, name);
        variables := variables + [name];
        i := i + 1;
      }
      assert names[i..] == [] && variables == names;
      bodyArgs := bodyArgs + [Edge(node.name, variables)];
      err := None;
    }

    /** Body phase (If.java:424-491). After a nested import the scan goes on at the
        node where the nested import stopped (see `Resume`). */
    method ScanBody(env: Env, s: ImportSession, ghost start: nat) returns (err: Option<ImportError>)
      requires s.cursor > start || s.cursor >= |s.nodes|
      modifies this`condition, this`body, this`bodyArgs, s
      decreases Left(s.nodes, start), 0, 1
      ensures var r := BodyPhase(env, s.nodes, AtStopNode, start, Scan(old(s.Model()), old(Model())));
              && (err.None? <==> r.Ok?)
              && (r.Fail? ==> err == Some(r.error))
              && (r.Ok? ==> Scan(s.Model(), Model()) == r.value)
    {
      err := None;
      while s.cursor < |s.nodes|
        invariant s.cursor > start || s.cursor >= |s.nodes|
        invariant BodyPhase(env, s.nodes, AtStopNode, start, Scan(s.Model(), Model()))
                  == BodyPhase(env, s.nodes, AtStopNode, start, Scan(old(s.Model()), old(Model())))
        invariant err == None
        decreases Left(s.nodes, s.cursor)
      {
        var node := s.nodes[s.cursor];
        if node.name in s.skip {
          s.cursor := s.cursor + 1;
          continue;
        }
        if IsNextIteration(node.op) {
          break;
        }
        if IsEnter(node.op) {
          err := ScanNested(env, s, node, start);
        } else {
          err := ScanBodyNode(env, s, node);
        }
        if err.Some? {
          return;
        }
      }
    }

    /** A nested Enter in the true body (If.java:456-460): a fresh If op imports from
        this node on the same session; its Enter node is then marked consumed. */
    method ScanNested(env: Env, s: ImportSession, node: Node, ghost start: nat) returns (err: Option<ImportError>)
      requires start < s.cursor < |s.nodes|
      modifies s
      decreases Left(s.nodes, start), 0, 0
      ensures var r := Import(env, s.nodes, AtStopNode, old(s.Model()), EmptyFrame);
              && (err.None? <==> r.Ok?)
              && (r.Fail? ==> err == Some(r.error))
              && (r.Ok? ==> s.Model() == AfterNested(AtStopNode, r.value.s, node.name))
    {
      var nested := new IfOp();
      err := nested.DoImport(env, s);
      if err.None? {
        s.skip := s.skip + {node.name};
      }
    }

    /** One true-body node that is neither consumed, a NextIteration nor an Enter
        (If.java:445-484). */
    method ScanBodyNode(env: Env, s: ImportSession, node: Node) returns (err: Option<ImportError>)
      modifies this`condition, this`body, this`bodyArgs, s`skip, s`cursor
      ensures var r := BodyNode(env, node, Scan(old(s.Model()), old(Model())));
              && (err.None? <==> r.Ok?)
              && (r.Fail? ==> err == Some(r.error))
              && (r.Ok? ==> Scan(s.Model(), Model()) == r.value)
    {
      if IsDeclaration(node.op) {
        body := body + {node.name};
      } else {
        err := ImportBodyOp(env, node, s.parent);
        if err.Some? {
          return;
        }
      }
      err := None;
      s.skip := s.skip + {node.name};
      s.cursor := s.cursor + 1;
    }

    /** One body op (If.java:463-484): instantiate its op and resolve each input. */
    method ImportBodyOp(env: Env, node: Node, parent: set<string>) returns (err: Option<ImportError>)
      modifies this`condition, this`bodyArgs
      ensures var r := BodyOp(env, node, parent, old(Model()));
              && (err.None? <==> r.Ok?)
              && (r.Fail? ==> err == Some(r.error))
              && (r.Ok? ==> Model() == r.value)
    {
      if node.op !in env.registry {
        return Some(UnknownOp(node.op));
      }
      ghost var names := Normalized(env, node.inputs);
      ghost var f0 := Model();
      var variables: seq<string> := [];
      var i := 0;
      while i < |node.inputs|
        invariant 0 <= i <= |node.inputs| && variables == names[..i]
        invariant ResolveAll(names[i..], condition, f0.body, parent) == ResolveAll(names, f0.condition, f0.body, parent)
        invariant bodyArgs == f0.bodyArgs
      {
        var name := env.normalize(node.inputs[i]);
        assert names[i..][0] == name && names[i..][1..] == names[i + 1..];
        match Resolve(name, condition, body, parent) {
          case Missing =>
            return Some(MissingVariable(name));
          case CopiedFromParent =>
            condition := condition + {name};
          case _ =>
        }
        variables := variables + [name];
        i := i + 1;
      }
      assert names[i..] == [] && variables == names;
      bodyArgs := bodyArgs + [Edge(node.name, variables)];
      err := None;
    }

    /** NextIteration phase (If.java:494-509): the parent variables named by the run,
        in scan order. */
    method ScanNextIterations(env: Env, s: ImportSession) returns (returnInputs: seq<string>)
      modifies s
      ensures (Scan(s.Model(), Model()), returnInputs) == NextIterationPhase(env, s.nodes, Scan(old(s.Model()), Model()), [])
    {
      returnInputs := [];
      while s.cursor < |s.nodes|
        invariant NextIterationPhase(env, s.nodes, Scan(s.Model(), Model()), returnInputs)
                  == NextIterationPhase(env, s.nodes, Scan(old(s.Model()), Model()), [])
        decreases |s.nodes| - s.cursor
      {
        var node := s.nodes[s.cursor];
        if !IsNextIteration(node.op) {
          break;
        }
        s.skip := s.skip + {node.name};
        var inputName := env.normalize(node.name);
        s.ResolveOrCreate(inputName);
        returnInputs := returnInputs + [inputName];
        s.cursor := s.cursor + 1;
      }
    }

    /** Exit phase (If.java:518-530). */
    method ScanExits(env: Env, s: ImportSession)
      modifies s
      ensures Scan(s.Model(), Model()) == ExitPhase(env, s.nodes, Scan(old(s.Model()), Model()))
    {
      while s.cursor < |s.nodes|
        invariant ExitPhase(env, s.nodes, Scan(s.Model(), Model())) == ExitPhase(env, s.nodes, Scan(old(s.Model()), Model()))
        decreases |s.nodes| - s.cursor
      {
        var node := s.nodes[s.cursor];
        if !IsExit(node.op) {
          break;
        }
        s.skip := s.skip + {node.name};
        var inputName := env.normalize(node.name);
        s.ResolveOrCreate(inputName);
        s.cursor := s.cursor + 1;
      }
    }
  }
}
