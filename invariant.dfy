/** What a whole import keeps invariant, and where the true-body scan stops.

    The import with the corrected resume (`AtStopNode`) only ever moves the shared
    cursor forward and keeps it within the node list; the skip set, the parent and
    the logs only grow; every node the cursor passes is in the skip set; and the
    parent variables it creates stay distinct. */
module ImportInvariant {
  import opened OpTags
  import opened ImportModel
  import opened ImportProofs

  /** The phases before the Identity nodes keep the invariant. */
  lemma ScopesKeeps(env: Env, nodes: seq<Node>, sc: Scan)
    requires sc.s.cursor <= |nodes|
    ensures Keeps(nodes, sc, Scopes(env, nodes, sc))
  {
    var a := EnterPhase(env, nodes, sc);
    EnterKeeps(env, nodes, sc);
    var b := MergePhase(env, nodes, a);
    MergeKeeps(env, nodes, a);
    var c := PredicatePhase(nodes, b);
    PredicateKeeps(nodes, b);
    SwitchRun(nodes, c);
    KeepsTrans(nodes, sc, a, b);
    KeepsTrans(nodes, sc, b, c);
    KeepsTrans(nodes, sc, c, Scopes(env, nodes, sc));
  }

  /** The phases after the true body keep the invariant. */
  lemma ConcludeKeeps(env: Env, nodes: seq<Node>, sc: Scan)
    requires sc.s.cursor <= |nodes|
    ensures Keeps(nodes, sc, Conclude(env, nodes, sc))
  {
    var (advanced, returned) := NextIterationPhase(env, nodes, sc, []);
    NextIterationKeeps(env, nodes, sc, []);
    var fin := Finalize(advanced, returned);
    assert Keeps(nodes, advanced, fin);
    KeepsTrans(nodes, sc, advanced, fin);
    ExitKeeps(env, nodes, fin);
    KeepsTrans(nodes, sc, fin, Conclude(env, nodes, sc));
  }

  /** After the true body, the If's input variables become the normalised names of the
      NextIteration run, in order; its output variables become empty; exactly one
      registration with those inputs and no outputs is appended to the parent; and
      the cursor ends past the Exit run that follows. */
  lemma ConcludeMeaning(env: Env, nodes: seq<Node>, sc: Scan)
    requires sc.s.cursor <= |nodes|
    ensures var r := Conclude(env, nodes, sc);
            var e := RunEnd(nodes, sc.s.cursor, NextIteration);
            var returned := NormNames(env, nodes, sc.s.cursor, e);
            && r.f.inputVars == returned
            && r.f.outputVars == []
            && r.s.registrations == sc.s.registrations + [Registration(returned, [])]
            && r.s.cursor == RunEnd(nodes, e, Exit)
  {
    var (advanced, returned) := NextIterationPhase(env, nodes, sc, []);
    NextIterationConsumes(env, nodes, sc, []);
    NextIterationDeclares(env, nodes, sc, []);
    var fin := Finalize(advanced, returned);
    ExitConsumes(env, nodes, fin);
    ExitDeclares(env, nodes, fin);
  }

  /** A successful true-body scan stops at the end of the list or at a NextIteration
      node that is not in the skip set, whichever resume the nested imports use. */
  lemma {:induction false} BodyStops(env: Env, nodes: seq<Node>, resume: Resume, start: nat, sc: Scan)
    requires sc.s.cursor > start || sc.s.cursor >= |nodes|
    decreases Left(nodes, start), 0, Left(nodes, sc.s.cursor)
    ensures var r := BodyPhase(env, nodes, resume, start, sc);
            r.Ok? ==> r.value.s.cursor >= |nodes|
                      || (IsNextIteration(nodes[r.value.s.cursor].op) && nodes[r.value.s.cursor].name !in r.value.s.skip)
  {
    if sc.s.cursor < |nodes| {
      var n := nodes[sc.s.cursor];
      if n.name in sc.s.skip {
        var next := sc.(s := sc.s.(cursor := sc.s.cursor + 1));
        assert BodyPhase(env, nodes, resume, start, sc) == BodyPhase(env, nodes, resume, start, next);
        BodyStops(env, nodes, resume, start, next);
      } else if IsNextIteration(n.op) {
      } else if IsEnter(n.op) {
        match Import(env, nodes, resume, sc.s, EmptyFrame)
        case Fail(_) =>
        case Ok(nested) =>
          var next := Scan(AfterNested(resume, nested.s, n.name), sc.f);
          assert BodyPhase(env, nodes, resume, start, sc) == BodyPhase(env, nodes, resume, start, next);
          BodyStops(env, nodes, resume, start, next);
      } else {
        match BodyNode(env, n, sc)
        case Fail(_) =>
        case Ok(next) =>
          assert BodyPhase(env, nodes, resume, start, sc) == BodyPhase(env, nodes, resume, start, next);
          BodyStops(env, nodes, resume, start, next);
      }
    }
  }

  /** `x` is the raw name of a constant, variable or placeholder node of `nodes[lo..hi]`. */
  predicate DeclaredIn(nodes: seq<Node>, lo: nat, hi: nat, x: string) {
    exists i :: lo <= i < hi && i < |nodes| && nodes[i].name == x && IsDeclaration(nodes[i].op)
  }

  /** `e` is the argument edge of a registered body op of `nodes[lo..hi]`: a node that
      is neither a declaration, an Enter nor a NextIteration. */
  predicate ImportedIn(env: Env, nodes: seq<Node>, lo: nat, hi: nat, e: Edge) {
    exists i :: lo <= i < hi && i < |nodes| && e == Edge(nodes[i].name, Normalized(env, nodes[i].inputs))
                && !IsDeclaration(nodes[i].op) && !IsEnter(nodes[i].op) && !IsNextIteration(nodes[i].op)
                && nodes[i].op in env.registry
  }

  /** A successful import, with either resume, only adds to the skip set. */
  lemma {:induction false} ImportSkipGrows(env: Env, nodes: seq<Node>, resume: Resume, s: Session, prior: Frame)
    requires s.cursor <= |nodes|
    decreases Left(nodes, s.cursor), 1, 0
    ensures var r := Import(env, nodes, resume, s, prior);
            r.Ok? ==> s.skip <= r.value.s.skip
  {
    var begun := Begin(s, prior);
    var scoped := Scopes(env, nodes, begun);
    ScopesKeeps(env, nodes, begun);
    IdentityKeeps(env, nodes, scoped);
    match IdentityPhase(env, nodes, scoped)
    case Fail(_) =>
    case Ok(identified) =>
      BodySkipGrows(env, nodes, resume, s.cursor, identified);
      match BodyPhase(env, nodes, resume, s.cursor, identified)
      case Fail(_) =>
      case Ok(bodied) =>
        if bodied.s.cursor <= |nodes| {
          ConcludeKeeps(env, nodes, bodied);
        }
  }

  /** A successful true-body scan, with either resume, only adds to the skip set. */
  lemma {:induction false} BodySkipGrows(env: Env, nodes: seq<Node>, resume: Resume, start: nat, sc: Scan)
    requires sc.s.cursor > start || sc.s.cursor >= |nodes|
    decreases Left(nodes, start), 0, Left(nodes, sc.s.cursor)
    ensures var r := BodyPhase(env, nodes, resume, start, sc);
            r.Ok? ==> sc.s.skip <= r.value.s.skip
  {
    if sc.s.cursor < |nodes| {
      var n := nodes[sc.s.cursor];
      if n.name in sc.s.skip {
        var next := sc.(s := sc.s.(cursor := sc.s.cursor + 1));
        assert BodyPhase(env, nodes, resume, start, sc) == BodyPhase(env, nodes, resume, start, next);
        BodySkipGrows(env, nodes, resume, start, next);
      } else if IsNextIteration(n.op) {
      } else if IsEnter(n.op) {
        ImportSkipGrows(env, nodes, resume, sc.s, EmptyFrame);
        match Import(env, nodes, resume, sc.s, EmptyFrame)
        case Fail(_) =>
        case Ok(nested) =>
          var next := Scan(AfterNested(resume, nested.s, n.name), sc.f);
          assert BodyPhase(env, nodes, resume, start, sc) == BodyPhase(env, nodes, resume, start, next);
          BodySkipGrows(env, nodes, resume, start, next);
      } else {
        match BodyNode(env, n, sc)
        case Fail(_) =>
        case Ok(next) =>
          assert next.s.skip == sc.s.skip + {n.name};
          assert BodyPhase(env, nodes, resume, start, sc) == BodyPhase(env, nodes, resume, start, next);
          BodySkipGrows(env, nodes, resume, start, next);
      }
    }
  }

  /** One step of the true-body scan at a node it does not stop on: the scan fails
      there, or it goes on from a later cursor with a larger skip set. The step only
      touches the If's true body when the node is a declaration not in the skip set,
      and only records an edge when it is a registered body op not in the skip set. */
  lemma BodyStep(env: Env, nodes: seq<Node>, resume: Resume, start: nat, sc: Scan) returns (next: Option<Scan>)
    requires start < sc.s.cursor < |nodes|
    requires nodes[sc.s.cursor].name in sc.s.skip || !IsNextIteration(nodes[sc.s.cursor].op)
    ensures next.None? ==> BodyPhase(env, nodes, resume, start, sc).Fail?
    ensures next.Some? ==>
              var n := nodes[sc.s.cursor];
              var unseen := n.name !in sc.s.skip && !IsEnter(n.op);
              && next.value.s.cursor > sc.s.cursor && sc.s.skip <= next.value.s.skip
              && BodyPhase(env, nodes, resume, start, sc) == BodyPhase(env, nodes, resume, start, next.value)
              && next.value.f.inputVars == sc.f.inputVars && next.value.f.outputVars == sc.f.outputVars
              && next.value.f.body == (if unseen && IsDeclaration(n.op) then sc.f.body + {n.name} else sc.f.body)
              && next.value.f.bodyArgs == (if unseen && !IsDeclaration(n.op) then sc.f.bodyArgs + [Edge(n.name, Normalized(env, n.inputs))]
                                           else sc.f.bodyArgs)
              && (unseen && !IsDeclaration(n.op) ==> n.op in env.registry)
  {
    var n := nodes[sc.s.cursor];
    if n.name in sc.s.skip {
      next := Some(sc.(s := sc.s.(cursor := sc.s.cursor + 1)));
    } else if IsEnter(n.op) {
      ImportSkipGrows(env, nodes, resume, sc.s, EmptyFrame);
      match Import(env, nodes, resume, sc.s, EmptyFrame)
      case Fail(_) =>
        next := None;
      case Ok(nested) =>
        next := Some(Scan(AfterNested(resume, nested.s, n.name), sc.f));
    } else {
      match BodyNode(env, n, sc)
      case Fail(_) =>
        next := None;
      case Ok(b) =>
        next := Some(b);
    }
  }

  /** What the true-body scan, with either resume, does to the If's own scopes: the
      input and output variables are untouched, the true body only grows, and every
      name it gains is the raw name of a constant, variable or placeholder node the
      scan passed that was not already in the skip set. Nodes in the skip set, and
      the nodes a nested import consumes, declare nothing in it. */
  lemma {:induction false} BodyDeclares(env: Env, nodes: seq<Node>, resume: Resume, start: nat, sc: Scan)
    requires sc.s.cursor > start || sc.s.cursor >= |nodes|
    decreases Left(nodes, sc.s.cursor)
    ensures var r := BodyPhase(env, nodes, resume, start, sc);
            r.Ok? ==>
              && r.value.f.inputVars == sc.f.inputVars && r.value.f.outputVars == sc.f.outputVars
              && sc.f.body <= r.value.f.body
              && forall x :: x in r.value.f.body && x !in sc.f.body ==>
                   x !in sc.s.skip && DeclaredIn(nodes, sc.s.cursor, r.value.s.cursor, x)
  {
    var c := sc.s.cursor;
    if c < |nodes| && (nodes[c].name in sc.s.skip || !IsNextIteration(nodes[c].op)) {
      var n := nodes[c];
      var step := BodyStep(env, nodes, resume, start, sc);
      if step.Some? {
        var next := step.value;
        BodyDeclares(env, nodes, resume, start, next);
        match BodyPhase(env, nodes, resume, start, next)
        case Fail(_) =>
        case Ok(r) =>
          forall x | x in r.f.body && x !in sc.f.body
            ensures x !in sc.s.skip && DeclaredIn(nodes, c, r.s.cursor, x)
          {
            if x in next.f.body {
              assert x == n.name && IsDeclaration(n.op);
              assert c < r.s.cursor && nodes[c].name == x;
            } else {
              var i :| next.s.cursor <= i < r.s.cursor && i < |nodes| && nodes[i].name == x && IsDeclaration(nodes[i].op);
              assert c <= i;
            }
          }
      }
    }
  }

  /** The argument edges the true-body scan, with either resume, records: the old ones
      are kept, and each new one is that of a registered body op the scan passed
      that was not already in the skip set. */
  lemma {:induction false} BodyEdges(env: Env, nodes: seq<Node>, resume: Resume, start: nat, sc: Scan)
    requires sc.s.cursor > start || sc.s.cursor >= |nodes|
    decreases Left(nodes, sc.s.cursor)
    ensures var r := BodyPhase(env, nodes, resume, start, sc);
            r.Ok? ==>
              && sc.f.bodyArgs <= r.value.f.bodyArgs
              && forall k :: |sc.f.bodyArgs| <= k < |r.value.f.bodyArgs| ==>
                   r.value.f.bodyArgs[k].op !in sc.s.skip
                   && ImportedIn(env, nodes, sc.s.cursor, r.value.s.cursor, r.value.f.bodyArgs[k])
  {
    var c := sc.s.cursor;
    if c < |nodes| && (nodes[c].name in sc.s.skip || !IsNextIteration(nodes[c].op)) {
      var n := nodes[c];
      var step := BodyStep(env, nodes, resume, start, sc);
      if step.Some? {
        var next := step.value;
        BodyEdges(env, nodes, resume, start, next);
        match BodyPhase(env, nodes, resume, start, next)
        case Fail(_) =>
        case Ok(r) =>
          forall k | |sc.f.bodyArgs| <= k < |r.f.bodyArgs|
            ensures r.f.bodyArgs[k].op !in sc.s.skip && ImportedIn(env, nodes, c, r.s.cursor, r.f.bodyArgs[k])
          {
            if k < |next.f.bodyArgs| {
              assert r.f.bodyArgs[k] == next.f.bodyArgs[k] == Edge(n.name, Normalized(env, n.inputs));
              assert c < r.s.cursor && nodes[c] == n;
            } else {
              var i :| next.s.cursor <= i < r.s.cursor && i < |nodes|
                       && r.f.bodyArgs[k] == Edge(nodes[i].name, Normalized(env, nodes[i].inputs))
                       && !IsDeclaration(nodes[i].op) && !IsEnter(nodes[i].op) && !IsNextIteration(nodes[i].op)
                       && nodes[i].op in env.registry;
              assert c <= i;
            }
          }
      }
    }
  }

  /** One body node keeps the invariant: a body op only copies parent variables into
      the condition scope. */
  lemma BodyNodeKeeps(env: Env, nodes: seq<Node>, sc: Scan)
    requires sc.s.cursor < |nodes|
    ensures var r := BodyNode(env, nodes[sc.s.cursor], sc);
            r.Ok? ==> Keeps(nodes, sc, r.value)
  {
    var n := nodes[sc.s.cursor];
    if !IsDeclaration(n.op) && n.op in env.registry {
      ResolveAllMeaning(Normalized(env, n.inputs), sc.f.condition, sc.f.body, sc.s.parent);
    }
  }

  /** A nested import followed by the corrected resume keeps the outer invariant: the
      outer If's own scopes are untouched and the nested import's effects on the
      session are those it keeps itself. */
  lemma NestedKeeps(nodes: seq<Node>, sc: Scan, nested: Scan, name: string)
    requires Keeps(nodes, Begin(sc.s, EmptyFrame), nested)
    ensures Keeps(nodes, sc, Scan(AfterNested(AtStopNode, nested.s, name), sc.f))
  {
  }

  /** A whole import with the corrected resume keeps the invariant, from the session it
      starts on to the one it returns. */
  lemma {:induction false} ImportKeeps(env: Env, nodes: seq<Node>, s: Session, prior: Frame)
    requires s.cursor <= |nodes|
    decreases Left(nodes, s.cursor), 1, 0
    ensures var r := Import(env, nodes, AtStopNode, s, prior);
            r.Ok? ==> Keeps(nodes, Begin(s, prior), r.value)
  {
    var begun := Begin(s, prior);
    var scoped := Scopes(env, nodes, begun);
    ScopesKeeps(env, nodes, begun);
    IdentityKeeps(env, nodes, scoped);
    match IdentityPhase(env, nodes, scoped)
    case Fail(_) =>
    case Ok(identified) =>
      KeepsTrans(nodes, begun, scoped, identified);
      BodyKeeps(env, nodes, s.cursor, identified);
      match BodyPhase(env, nodes, AtStopNode, s.cursor, identified)
      case Fail(_) =>
      case Ok(bodied) =>
        KeepsTrans(nodes, begun, identified, bodied);
        ConcludeKeeps(env, nodes, bodied);
        KeepsTrans(nodes, begun, bodied, Conclude(env, nodes, bodied));
  }

  /** The true-body scan with the corrected resume keeps the invariant. */
  lemma {:induction false} BodyKeeps(env: Env, nodes: seq<Node>, start: nat, sc: Scan)
    requires sc.s.cursor > start || sc.s.cursor >= |nodes|
    requires sc.s.cursor <= |nodes|
    decreases Left(nodes, start), 0, Left(nodes, sc.s.cursor)
    ensures var r := BodyPhase(env, nodes, AtStopNode, start, sc);
            r.Ok? ==> Keeps(nodes, sc, r.value)
  {
    if sc.s.cursor < |nodes| {
      var n := nodes[sc.s.cursor];
      if n.name in sc.s.skip {
        var next := sc.(s := sc.s.(cursor := sc.s.cursor + 1));
        BodyKeeps(env, nodes, start, next);
        BodyChain(env, nodes, start, sc, next);
      } else if IsNextIteration(n.op) {
      } else if IsEnter(n.op) {
        ImportKeeps(env, nodes, sc.s, EmptyFrame);
        match Import(env, nodes, AtStopNode, sc.s, EmptyFrame)
        case Fail(_) =>
        case Ok(nested) =>
          var next := Scan(AfterNested(AtStopNode, nested.s, n.name), sc.f);
          NestedKeeps(nodes, sc, nested, n.name);
          BodyKeeps(env, nodes, start, next);
          BodyChain(env, nodes, start, sc, next);
      } else {
        BodyNodeKeeps(env, nodes, sc);
        match BodyNode(env, n, sc)
        case Fail(_) =>
        case Ok(next) =>
          BodyKeeps(env, nodes, start, next);
          BodyChain(env, nodes, start, sc, next);
      }
    }
  }

  /** One step of the true-body scan, followed by the rest of it, keeps the invariant
      when both parts do. */
  lemma BodyChain(env: Env, nodes: seq<Node>, start: nat, sc: Scan, next: Scan)
    requires sc.s.cursor > start || sc.s.cursor >= |nodes|
    requires next.s.cursor > start || next.s.cursor >= |nodes|
    requires Keeps(nodes, sc, next)
    requires BodyPhase(env, nodes, AtStopNode, start, sc) == BodyPhase(env, nodes, AtStopNode, start, next)
    requires BodyPhase(env, nodes, AtStopNode, start, next).Ok?
             ==> Keeps(nodes, next, BodyPhase(env, nodes, AtStopNode, start, next).value)
    ensures BodyPhase(env, nodes, AtStopNode, start, sc).Ok?
            ==> Keeps(nodes, sc, BodyPhase(env, nodes, AtStopNode, start, sc).value)
  {
    if BodyPhase(env, nodes, AtStopNode, start, next).Ok? {
      KeepsTrans(nodes, sc, next, BodyPhase(env, nodes, AtStopNode, start, next).value);
    }
  }
}
