/** Properties of the import model: what each phase consumes and declares, how
    names are resolved, and what a whole import keeps invariant. */
module ImportProofs {
  import opened OpTags
  import opened ImportModel

  // ---------------------------------------------------------------- vocabulary

  /** The structural markers that delimit the runs of the Enter, Merge, Switch,
      Identity, NextIteration and Exit phases. */
  datatype Marker = Enter | Merge | Switch | Identity | NextIteration | Exit

  predicate Marks(m: Marker, op: string) {
    match m
    case Enter => IsEnter(op)
    case Merge => IsMerge(op)
    case Switch => IsSwitch(op)
    case Identity => IsIdentity(op)
    case NextIteration => IsNextIteration(op)
    case Exit => IsExit(op)
  }

  /** The end of the maximal run of `m`-nodes that starts at `i`: every node before
      it is an `m`-node, and it is the end of the list or a node of another kind. */
  function RunEnd(nodes: seq<Node>, i: nat, m: Marker): (e: nat)
    requires i <= |nodes|
    decreases |nodes| - i
    ensures i <= e <= |nodes|
  {
    if i < |nodes| && Marks(m, nodes[i].op) then RunEnd(nodes, i + 1, m) else i
  }

  /** `RunEnd` ends a maximal run: every node before it is an `m`-node, and it is the
      end of the list or a node of another kind. */
  lemma {:induction false} RunEndMeaning(nodes: seq<Node>, i: nat, m: Marker)
    requires i <= |nodes|
    decreases |nodes| - i
    ensures var e := RunEnd(nodes, i, m);
            && (forall k :: i <= k < e ==> Marks(m, nodes[k].op))
            && (e == |nodes| || !Marks(m, nodes[e].op))
  {
    if i < |nodes| && Marks(m, nodes[i].op) {
      RunEndMeaning(nodes, i + 1, m);
    }
  }

  /** The index of the first LoopCond at or after `i`, or `|nodes|` if there is none. */
  function FirstLoopCond(nodes: seq<Node>, i: nat): (l: nat)
    requires i <= |nodes|
    decreases |nodes| - i
    ensures i <= l <= |nodes|
  {
    if i == |nodes| || IsLoopCond(nodes[i].op) then i else FirstLoopCond(nodes, i + 1)
  }

  /** `FirstLoopCond` finds the first LoopCond: none comes before it, and it is one
      unless it is the end of the list. */
  lemma {:induction false} FirstLoopCondMeaning(nodes: seq<Node>, i: nat)
    requires i <= |nodes|
    decreases |nodes| - i
    ensures var l := FirstLoopCond(nodes, i);
            && (forall k :: i <= k < l ==> !IsLoopCond(nodes[k].op))
            && (l == |nodes| || IsLoopCond(nodes[l].op))
  {
    if i < |nodes| && !IsLoopCond(nodes[i].op) {
      FirstLoopCondMeaning(nodes, i + 1);
    }
  }

  /** The names of `nodes[lo..hi]`. */
  function Names(nodes: seq<Node>, lo: nat, hi: nat): set<string>
    requires lo <= hi <= |nodes|
    decreases hi - lo
  {
    if lo == hi then {} else {nodes[lo].name} + Names(nodes, lo + 1, hi)
  }

  /** The normalised names of `nodes[lo..hi]`, in order. */
  function NormNames(env: Env, nodes: seq<Node>, lo: nat, hi: nat): seq<string>
    requires lo <= hi <= |nodes|
    decreases hi - lo
  {
    if lo == hi then [] else [env.normalize(nodes[lo].name)] + NormNames(env, nodes, lo + 1, hi)
  }

  /** The normalised inputs of `nodes[lo..hi]`. */
  function Inputs(env: Env, nodes: seq<Node>, lo: nat, hi: nat): set<string>
    requires lo <= hi <= |nodes|
    decreases hi - lo
  {
    if lo == hi then {} else Elems(Normalized(env, nodes[lo].inputs)) + Inputs(env, nodes, lo + 1, hi)
  }

  /** The names of the constant, variable and placeholder nodes of `nodes[lo..hi]`. */
  function Decls(nodes: seq<Node>, lo: nat, hi: nat): set<string>
    requires lo <= hi <= |nodes|
    decreases hi - lo
  {
    if lo == hi then {}
    else (if IsDeclaration(nodes[lo].op) then {nodes[lo].name} else {}) + Decls(nodes, lo + 1, hi)
  }

  /** The parent variables an import created are distinct and declared, and every
      name in the condition scope is a parent variable. */
  predicate Sound(sc: Scan) {
    NoDup(sc.s.created) && Elems(sc.s.created) <= sc.s.parent && sc.f.condition <= sc.s.parent
  }

  /** What every phase keeps from `a` to `b`: the cursor moves forward and stays in
      the list, the skip set, the parent and the logs only grow, soundness is
      preserved, and every node the cursor passed is in the skip set. */
  predicate Keeps(nodes: seq<Node>, a: Scan, b: Scan) {
    && a.s.cursor <= b.s.cursor <= |nodes|
    && a.s.skip <= b.s.skip && a.s.parent <= b.s.parent
    && a.s.created <= b.s.created && a.s.registrations <= b.s.registrations
    && (Sound(a) ==> Sound(b))
    && forall k :: a.s.cursor <= k < b.s.cursor ==> nodes[k].name in b.s.skip
  }

  // ---------------------------------------------------------------- helpers

  lemma ElemsCons(names: seq<string>)
    requires names != []
    ensures Elems(names) == {names[0]} + Elems(names[1..])
  {
    assert forall y :: y in names <==> y == names[0] || y in names[1..];
  }

  lemma KeepsTrans(nodes: seq<Node>, a: Scan, b: Scan, c: Scan)
    requires Keeps(nodes, a, b) && Keeps(nodes, b, c)
    ensures Keeps(nodes, a, c)
  {
    assert a.s.created <= c.s.created by {
      assert c.s.created[..|a.s.created|] == c.s.created[..|b.s.created|][..|a.s.created|];
    }
    assert a.s.registrations <= c.s.registrations by {
      assert c.s.registrations[..|a.s.registrations|] == c.s.registrations[..|b.s.registrations|][..|a.s.registrations|];
    }
  }

  lemma {:induction false} NamesCover(nodes: seq<Node>, lo: nat, hi: nat)
    requires lo <= hi <= |nodes|
    decreases hi - lo
    ensures forall k :: lo <= k < hi ==> nodes[k].name in Names(nodes, lo, hi)
  {
    if lo < hi {
      NamesCover(nodes, lo + 1, hi);
    }
  }

  // ---------------------------------------------------------------- variables

  /** Resolve-or-create on one name: the parent gains the name; it is logged as
      created exactly when it was absent, so the log stays duplicate-free. */
  lemma CreateIfAbsentMeaning(s: Session, name: string)
    ensures var r := CreateIfAbsent(s, name);
            && r.cursor == s.cursor && r.skip == s.skip && r.registrations == s.registrations
            && r.parent == s.parent + {name}
            && r.created == (if name in s.parent then s.created else s.created + [name])
            && (NoDup(s.created) && Elems(s.created) <= s.parent ==> NoDup(r.created) && Elems(r.created) <= r.parent)
  {
    if name !in s.parent {
      ElemsSnoc(s.created, name);
    }
  }

  /** Resolve-or-create on a list of names: the parent gains all of them, and the
      names logged as created are exactly those that were absent. */
  lemma {:induction false} CreateAllMeaning(s: Session, names: seq<string>)
    decreases |names|
    ensures var r := CreateAll(s, names);
            && r.cursor == s.cursor && r.skip == s.skip && r.registrations == s.registrations
            && r.parent == s.parent + Elems(names)
            && s.created <= r.created
            && Elems(r.created) == Elems(s.created) + (Elems(names) - s.parent)
            && (NoDup(s.created) && Elems(s.created) <= s.parent ==> NoDup(r.created) && Elems(r.created) <= r.parent)
  {
    if names != [] {
      var t := CreateIfAbsent(s, names[0]);
      CreateIfAbsentMeaning(s, names[0]);
      CreateAllMeaning(t, names[1..]);
      ElemsCons(names);
      if names[0] !in s.parent {
        ElemsSnoc(s.created, names[0]);
      }
      var r := CreateAll(t, names[1..]);
      assert s.created <= r.created by {
        assert r.created[..|s.created|] == r.created[..|t.created|][..|s.created|];
      }
    }
  }

  // ---------------------------------------------------------------- phases

  /** One Enter node, as `CreateAllMeaning` sees it. */
  lemma EnterStepMeaning(env: Env, nodes: seq<Node>, sc: Scan)
    requires sc.s.cursor < |nodes|
    ensures var n := nodes[sc.s.cursor];
            var r := EnterStep(env, n, sc);
            var added := Elems(Normalized(env, n.inputs));
            && r.s.cursor == sc.s.cursor + 1
            && r.s.skip == sc.s.skip + {n.name}
            && r.s.parent == sc.s.parent + added
            && Elems(r.s.created) == Elems(sc.s.created) + (added - sc.s.parent)
            && r.f == sc.f.(condition := sc.f.condition + added, body := sc.f.body + added,
                            inputVars := Normalized(env, n.inputs))
            && Keeps(nodes, sc, r)
  {
    var n := nodes[sc.s.cursor];
    CreateAllMeaning(sc.s.(skip := sc.s.skip + {n.name}), Normalized(env, n.inputs));
  }

  /** Enter phase: it consumes exactly the maximal run of Enter nodes, and the input
      variables become the last Enter node's inputs. */
  lemma {:induction false} EnterConsumes(env: Env, nodes: seq<Node>, sc: Scan)
    requires sc.s.cursor <= |nodes|
    decreases |nodes| - sc.s.cursor
    ensures var r := EnterPhase(env, nodes, sc);
            var e := RunEnd(nodes, sc.s.cursor, Enter);
            && r.s.cursor == e
            && r.s.skip == sc.s.skip + Names(nodes, sc.s.cursor, e)
            && r.f.inputVars == if e == sc.s.cursor then sc.f.inputVars else Normalized(env, nodes[e - 1].inputs)
  {
    var c := sc.s.cursor;
    if c < |nodes| && IsEnter(nodes[c].op) {
      var next := EnterStep(env, nodes[c], sc);
      var e := RunEnd(nodes, c, Enter);
      assert EnterPhase(env, nodes, sc) == EnterPhase(env, nodes, next);
      assert e == RunEnd(nodes, c + 1, Enter);
      assert Names(nodes, c, e) == {nodes[c].name} + Names(nodes, c + 1, e);
      EnterStepMeaning(env, nodes, sc);
      EnterConsumes(env, nodes, next);
    } else {
      assert Names(nodes, c, c) == {} && sc.s.skip + {} == sc.s.skip;
    }
  }

  /** Enter phase: each input of each Enter node is declared in the parent, the
      condition scope and the true body, and is logged as created exactly when the
      parent lacked it. */
  lemma {:induction false} EnterDeclares(env: Env, nodes: seq<Node>, sc: Scan)
    requires sc.s.cursor <= |nodes|
    decreases |nodes| - sc.s.cursor
    ensures var r := EnterPhase(env, nodes, sc);
            var added := Inputs(env, nodes, sc.s.cursor, RunEnd(nodes, sc.s.cursor, Enter));
            && r.s.parent == sc.s.parent + added
            && Elems(r.s.created) == Elems(sc.s.created) + (added - sc.s.parent)
            && r.f.condition == sc.f.condition + added
            && r.f.body == sc.f.body + added
  {
    var c := sc.s.cursor;
    if c < |nodes| && IsEnter(nodes[c].op) {
      var next := EnterStep(env, nodes[c], sc);
      var e := RunEnd(nodes, c, Enter);
      assert EnterPhase(env, nodes, sc) == EnterPhase(env, nodes, next);
      assert e == RunEnd(nodes, c + 1, Enter);
      assert Inputs(env, nodes, c, e) == Elems(Normalized(env, nodes[c].inputs)) + Inputs(env, nodes, c + 1, e);
      EnterStepMeaning(env, nodes, sc);
      EnterDeclares(env, nodes, next);
    } else {
      assert Inputs(env, nodes, c, c) == {};
      assert sc.s.parent + {} == sc.s.parent && sc.f.condition + {} == sc.f.condition && sc.f.body + {} == sc.f.body;
    }
  }

  lemma {:induction false} EnterKeeps(env: Env, nodes: seq<Node>, sc: Scan)
    requires sc.s.cursor <= |nodes|
    decreases |nodes| - sc.s.cursor
    ensures Keeps(nodes, sc, EnterPhase(env, nodes, sc))
  {
    var c := sc.s.cursor;
    if c < |nodes| && IsEnter(nodes[c].op) {
      var next := EnterStep(env, nodes[c], sc);
      EnterStepMeaning(env, nodes, sc);
      EnterKeeps(env, nodes, next);
      KeepsTrans(nodes, sc, next, EnterPhase(env, nodes, next));
    }
  }

  /** Merge phase: it consumes exactly the maximal run of Merge nodes. */
  lemma {:induction false} MergeConsumes(env: Env, nodes: seq<Node>, sc: Scan)
    requires sc.s.cursor <= |nodes|
    decreases |nodes| - sc.s.cursor
    ensures var r := MergePhase(env, nodes, sc);
            var e := RunEnd(nodes, sc.s.cursor, Merge);
            && r.s.cursor == e
            && r.s.skip == sc.s.skip + Names(nodes, sc.s.cursor, e)
  {
    var c := sc.s.cursor;
    if c < |nodes| && IsMerge(nodes[c].op) {
      var v := env.normalize(nodes[c].name);
      var next := Advance(Scan(sc.s.(parent := sc.s.parent + {v}),
                               sc.f.(condition := sc.f.condition + {v}, body := sc.f.body + {v})), nodes[c].name);
      var e := RunEnd(nodes, c, Merge);
      assert MergePhase(env, nodes, sc) == MergePhase(env, nodes, next);
      assert e == RunEnd(nodes, c + 1, Merge);
      assert Names(nodes, c, e) == {nodes[c].name} + Names(nodes, c + 1, e);
      MergeConsumes(env, nodes, next);
    } else {
      assert Names(nodes, c, c) == {} && sc.s.skip + {} == sc.s.skip;
    }
  }

  /** Merge phase: each Merge node's normalised name is declared in the true body, the
      condition scope and the parent; nothing is created or registered. */
  lemma {:induction false} MergeDeclares(env: Env, nodes: seq<Node>, sc: Scan)
    requires sc.s.cursor <= |nodes|
    decreases |nodes| - sc.s.cursor
    ensures var r := MergePhase(env, nodes, sc);
            var added := Elems(NormNames(env, nodes, sc.s.cursor, RunEnd(nodes, sc.s.cursor, Merge)));
            && r.s.parent == sc.s.parent + added
            && r.s.created == sc.s.created && r.s.registrations == sc.s.registrations
            && r.f.condition == sc.f.condition + added
            && r.f.bodyArgs == sc.f.bodyArgs && r.f.inputVars == sc.f.inputVars && r.f.outputVars == sc.f.outputVars
  {
    var c := sc.s.cursor;
    if c < |nodes| && IsMerge(nodes[c].op) {
      var v := env.normalize(nodes[c].name);
      var next := Advance(Scan(sc.s.(parent := sc.s.parent + {v}),
                               sc.f.(condition := sc.f.condition + {v}, body := sc.f.body + {v})), nodes[c].name);
      var e := RunEnd(nodes, c, Merge);
      assert MergePhase(env, nodes, sc) == MergePhase(env, nodes, next);
      assert e == RunEnd(nodes, c + 1, Merge);
      assert NormNames(env, nodes, c, e) == [v] + NormNames(env, nodes, c + 1, e);
      ElemsCons(NormNames(env, nodes, c, e));
      MergeDeclares(env, nodes, next);
    } else {
      assert NormNames(env, nodes, c, c) == [];
      assert Elems(NormNames(env, nodes, c, c)) == {};
      assert sc.s.parent + {} == sc.s.parent && sc.f.condition + {} == sc.f.condition;
    }
  }

  /** Merge phase: the true body gains every Merge node's normalised name and also the
      normalised name of the node that ends the run, which is not consumed. */
  lemma {:induction false} MergeBody(env: Env, nodes: seq<Node>, sc: Scan)
    requires sc.s.cursor <= |nodes|
    decreases |nodes| - sc.s.cursor
    ensures var r := MergePhase(env, nodes, sc);
            var e := RunEnd(nodes, sc.s.cursor, Merge);
            var stop: set<string> := if e < |nodes| then {env.normalize(nodes[e].name)} else {};
            r.f.body == sc.f.body + Elems(NormNames(env, nodes, sc.s.cursor, e)) + stop
  {
    var c := sc.s.cursor;
    if c < |nodes| && IsMerge(nodes[c].op) {
      var v := env.normalize(nodes[c].name);
      var next := Advance(Scan(sc.s.(parent := sc.s.parent + {v}),
                               sc.f.(condition := sc.f.condition + {v}, body := sc.f.body + {v})), nodes[c].name);
      var e := RunEnd(nodes, c, Merge);
      assert MergePhase(env, nodes, sc) == MergePhase(env, nodes, next);
      assert e == RunEnd(nodes, c + 1, Merge);
      assert NormNames(env, nodes, c, e) == [v] + NormNames(env, nodes, c + 1, e);
      ElemsCons(NormNames(env, nodes, c, e));
      MergeBody(env, nodes, next);
    } else {
      assert NormNames(env, nodes, c, c) == [];
      assert Elems(NormNames(env, nodes, c, c)) == {};
      assert sc.f.body + {} == sc.f.body;
    }
  }

  lemma {:induction false} MergeKeeps(env: Env, nodes: seq<Node>, sc: Scan)
    requires sc.s.cursor <= |nodes|
    decreases |nodes| - sc.s.cursor
    ensures Keeps(nodes, sc, MergePhase(env, nodes, sc))
  {
    var c := sc.s.cursor;
    if c < |nodes| && IsMerge(nodes[c].op) {
      var v := env.normalize(nodes[c].name);
      var next := Advance(Scan(sc.s.(parent := sc.s.parent + {v}),
                               sc.f.(condition := sc.f.condition + {v}, body := sc.f.body + {v})), nodes[c].name);
      assert Keeps(nodes, sc, next);
      MergeKeeps(env, nodes, next);
      KeepsTrans(nodes, sc, next, MergePhase(env, nodes, next));
    }
  }

  /** Predicate phase: the cursor ends one past the first LoopCond, or at the end of
      the list if there is none; every node passed, the LoopCond included, is in the
      skip set. */
  lemma {:induction false} PredicateConsumes(nodes: seq<Node>, sc: Scan)
    requires sc.s.cursor <= |nodes|
    decreases |nodes| - sc.s.cursor
    ensures var r := PredicatePhase(nodes, sc);
            var l := FirstLoopCond(nodes, sc.s.cursor);
            var e := if l < |nodes| then l + 1 else |nodes|;
            && r.s.cursor == e
            && r.s.skip == sc.s.skip + Names(nodes, sc.s.cursor, e)
  {
    var c := sc.s.cursor;
    if c < |nodes| && !IsLoopCond(nodes[c].op) {
      var n := nodes[c];
      var l := FirstLoopCond(nodes, c);
      var e := if l < |nodes| then l + 1 else |nodes|;
      assert l == FirstLoopCond(nodes, c + 1);
      assert Names(nodes, c, e) == {n.name} + Names(nodes, c + 1, e);
      assert sc.s.skip + {n.name} + Names(nodes, c + 1, e) == sc.s.skip + Names(nodes, c, e);
      var next := if IsDeclaration(n.op) then PredicateDeclare(sc, n.name) else Advance(sc, n.name);
      assert PredicatePhase(nodes, sc) == PredicatePhase(nodes, next);
      PredicateConsumes(nodes, next);
    } else if c < |nodes| {
      assert Names(nodes, c, c + 1) == {nodes[c].name};
    } else {
      assert Names(nodes, c, c) == {} && sc.s.skip + {} == sc.s.skip;
    }
  }

  /** Predicate phase: only constant, variable and placeholder nodes before the first
      LoopCond are declared, under their raw names, in the condition scope, the true
      body and the parent; nothing is created or registered. */
  lemma {:induction false} PredicateDeclares(nodes: seq<Node>, sc: Scan)
    requires sc.s.cursor <= |nodes|
    decreases |nodes| - sc.s.cursor
    ensures var r := PredicatePhase(nodes, sc);
            var declared := Decls(nodes, sc.s.cursor, FirstLoopCond(nodes, sc.s.cursor));
            && r.s.parent == sc.s.parent + declared
            && r.s.created == sc.s.created && r.s.registrations == sc.s.registrations
            && r.f == sc.f.(condition := sc.f.condition + declared, body := sc.f.body + declared)
  {
    var c := sc.s.cursor;
    if c < |nodes| && !IsLoopCond(nodes[c].op) {
      var n := nodes[c];
      var l := FirstLoopCond(nodes, c);
      assert l == FirstLoopCond(nodes, c + 1);
      if IsDeclaration(n.op) {
        var next := PredicateDeclare(sc, n.name);
        assert PredicatePhase(nodes, sc) == PredicatePhase(nodes, next);
        var declared := Decls(nodes, c + 1, l);
        assert Decls(nodes, c, l) == {n.name} + declared;
        assert sc.s.parent + {n.name} + declared == sc.s.parent + Decls(nodes, c, l);
        assert sc.f.condition + {n.name} + declared == sc.f.condition + Decls(nodes, c, l);
        assert sc.f.body + {n.name} + declared == sc.f.body + Decls(nodes, c, l);
        PredicateDeclares(nodes, next);
      } else {
        var next := Advance(sc, n.name);
        assert PredicatePhase(nodes, sc) == PredicatePhase(nodes, next);
        assert Decls(nodes, c, l) == Decls(nodes, c + 1, l);
        PredicateDeclares(nodes, next);
      }
    } else {
      assert Decls(nodes, c, c) == {} && sc.s.parent + {} == sc.s.parent;
      assert sc.f.condition + {} == sc.f.condition && sc.f.body + {} == sc.f.body;
    }
  }

  lemma {:induction false} PredicateKeeps(nodes: seq<Node>, sc: Scan)
    requires sc.s.cursor <= |nodes|
    decreases |nodes| - sc.s.cursor
    ensures Keeps(nodes, sc, PredicatePhase(nodes, sc))
  {
    var c := sc.s.cursor;
    if c < |nodes| && !IsLoopCond(nodes[c].op) {
      var n := nodes[c];
      var d: set<string> := if IsDeclaration(n.op) then {n.name} else {};
      var next := if IsDeclaration(n.op) then PredicateDeclare(sc, n.name) else Advance(sc, n.name);
      assert PredicatePhase(nodes, sc) == PredicatePhase(nodes, next);
      assert Keeps(nodes, sc, next);
      PredicateKeeps(nodes, next);
      KeepsTrans(nodes, sc, next, PredicatePhase(nodes, next));
    }
  }

  /** Switch phase: it consumes exactly the maximal run of Switch nodes and changes
      nothing but the cursor and the skip set. */
  lemma {:induction false} SwitchRun(nodes: seq<Node>, sc: Scan)
    requires sc.s.cursor <= |nodes|
    decreases |nodes| - sc.s.cursor
    ensures var r := SwitchPhase(nodes, sc);
            var e := RunEnd(nodes, sc.s.cursor, Switch);
            && r == sc.(s := sc.s.(cursor := e, skip := sc.s.skip + Names(nodes, sc.s.cursor, e)))
            && Keeps(nodes, sc, r)
  {
    var c := sc.s.cursor;
    if c < |nodes| && IsSwitch(nodes[c].op) {
      var next := Advance(sc, nodes[c].name);
      var e := RunEnd(nodes, c, Switch);
      assert e == RunEnd(nodes, c + 1, Switch);
      assert Names(nodes, c, e) == {nodes[c].name} + Names(nodes, c + 1, e);
      SwitchRun(nodes, next);
      KeepsTrans(nodes, sc, next, SwitchPhase(nodes, next));
    }
  }

  // ---------------------------------------------------------------- resolution

  /** The body-op resolution succeeds exactly when every input is in one of the three
      scopes; then the condition scope gains the inputs found in neither the condition
      nor the true body, otherwise the error names an input found nowhere. */
  lemma {:induction false} ResolveAllMeaning(names: seq<string>, condition: set<string>, body: set<string>, parent: set<string>)
    decreases |names|
    ensures var r := ResolveAll(names, condition, body, parent);
            && (r.Ok? <==> Elems(names) <= condition + body + parent)
            && (r.Ok? ==> r.value == condition + (Elems(names) - body))
            && (r.Fail? ==> r.error.MissingVariable? && r.error.name in names && r.error.name !in condition + body + parent)
  {
    if names != [] {
      ElemsCons(names);
      var r0 := Resolve(names[0], condition, body, parent);
      if r0 != Missing {
        ResolveAllMeaning(names[1..], if r0 == CopiedFromParent then condition + {names[0]} else condition, body, parent);
      }
    } else {
      assert Elems(names) == {};
      assert condition + {} == condition;
    }
  }

  /** `FirstMissing` finds nothing exactly when `pool` holds every name; what it finds
      is one of the names and is not in `pool`. */
  lemma {:induction false} FirstMissingMeaning(names: seq<string>, pool: set<string>)
    decreases |names|
    ensures var r := FirstMissing(names, pool);
            && (r.None? <==> Elems(names) <= pool)
            && (r.Some? ==> r.value in names && r.value !in pool)
  {
    if names != [] {
      ElemsCons(names);
      if names[0] in pool {
        FirstMissingMeaning(names[1..], pool);
      }
    } else {
      assert Elems(names) == {};
    }
  }

  // ---------------------------------------------------------------- identity

  /** Every node of `nodes[lo..hi]` has a registered op and only inputs that name
      parent variables. */
  predicate Importable(env: Env, nodes: seq<Node>, lo: nat, hi: nat, parent: set<string>)
    requires lo <= hi <= |nodes|
  {
    forall k :: lo <= k < hi ==> nodes[k].op in env.registry && Elems(Normalized(env, nodes[k].inputs)) <= parent
  }

  /** The argument edges of the nodes of `nodes[lo..hi]`, in order. */
  function Edges(env: Env, nodes: seq<Node>, lo: nat, hi: nat): seq<Edge>
    requires lo <= hi <= |nodes|
    decreases hi - lo
  {
    if lo == hi then [] else [Edge(nodes[lo].name, Normalized(env, nodes[lo].inputs))] + Edges(env, nodes, lo + 1, hi)
  }

  /** The Identity phase succeeds exactly when every node of the Identity run has a
      registered op and only parent variables as inputs. */
  lemma {:induction false} IdentityOutcome(env: Env, nodes: seq<Node>, sc: Scan)
    requires sc.s.cursor <= |nodes|
    decreases |nodes| - sc.s.cursor
    ensures IdentityPhase(env, nodes, sc).Ok?
            <==> Importable(env, nodes, sc.s.cursor, RunEnd(nodes, sc.s.cursor, Identity), sc.s.parent)
  {
    var c := sc.s.cursor;
    var e := RunEnd(nodes, c, Identity);
    if c < |nodes| && IsIdentity(nodes[c].op) {
      var n := nodes[c];
      assert e == RunEnd(nodes, c + 1, Identity);
      FirstMissingMeaning(Normalized(env, n.inputs), sc.s.parent);
      match IdentityOp(env, n, sc.s.parent, sc.f)
      case Fail(err) =>
        assert !Importable(env, nodes, c, e, sc.s.parent) by {
          assert c < e;
        }
      case Ok(f) =>
        IdentityOutcome(env, nodes, Advance(Scan(sc.s, f), n.name));
        assert Importable(env, nodes, c, e, sc.s.parent) <==> Importable(env, nodes, c + 1, e, sc.s.parent);
    }
  }

  /** A failed Identity phase names an unregistered op or a variable the parent lacks. */
  lemma {:induction false} IdentityFailure(env: Env, nodes: seq<Node>, sc: Scan)
    requires sc.s.cursor <= |nodes|
    decreases |nodes| - sc.s.cursor
    ensures var r := IdentityPhase(env, nodes, sc);
            && (r.Fail? && r.error.MissingVariable? ==> r.error.name !in sc.s.parent)
            && (r.Fail? && r.error.UnknownOp? ==> r.error.op !in env.registry)
  {
    var c := sc.s.cursor;
    if c < |nodes| && IsIdentity(nodes[c].op) {
      var n := nodes[c];
      FirstMissingMeaning(Normalized(env, n.inputs), sc.s.parent);
      match IdentityOp(env, n, sc.s.parent, sc.f)
      case Fail(err) =>
      case Ok(f) =>
        IdentityFailure(env, nodes, Advance(Scan(sc.s, f), n.name));
    }
  }

  /** A successful Identity phase consumes exactly the Identity run and changes nothing
      else in the session. */
  lemma {:induction false} IdentityConsumes(env: Env, nodes: seq<Node>, sc: Scan)
    requires sc.s.cursor <= |nodes|
    decreases |nodes| - sc.s.cursor
    ensures var r := IdentityPhase(env, nodes, sc);
            var e := RunEnd(nodes, sc.s.cursor, Identity);
            r.Ok? ==> r.value.s == sc.s.(cursor := e, skip := sc.s.skip + Names(nodes, sc.s.cursor, e))
  {
    var c := sc.s.cursor;
    if c < |nodes| && IsIdentity(nodes[c].op) {
      var n := nodes[c];
      var e := RunEnd(nodes, c, Identity);
      assert e == RunEnd(nodes, c + 1, Identity);
      assert Names(nodes, c, e) == {n.name} + Names(nodes, c + 1, e);
      match IdentityOp(env, n, sc.s.parent, sc.f)
      case Fail(_) =>
      case Ok(f) =>
        IdentityConsumes(env, nodes, Advance(Scan(sc.s, f), n.name));
    } else {
      assert Names(nodes, c, c) == {} && sc.s.skip + {} == sc.s.skip;
    }
  }

  /** A successful Identity phase mirrors every input of the run into the condition
      scope and the true body. */
  lemma {:induction false} IdentityDeclares(env: Env, nodes: seq<Node>, sc: Scan)
    requires sc.s.cursor <= |nodes|
    decreases |nodes| - sc.s.cursor
    ensures var r := IdentityPhase(env, nodes, sc);
            var added := Inputs(env, nodes, sc.s.cursor, RunEnd(nodes, sc.s.cursor, Identity));
            r.Ok? ==> r.value.f.condition == sc.f.condition + added && r.value.f.body == sc.f.body + added
  {
    var c := sc.s.cursor;
    if c < |nodes| && IsIdentity(nodes[c].op) {
      var n := nodes[c];
      var e := RunEnd(nodes, c, Identity);
      assert e == RunEnd(nodes, c + 1, Identity);
      assert Inputs(env, nodes, c, e) == Elems(Normalized(env, n.inputs)) + Inputs(env, nodes, c + 1, e);
      match IdentityOp(env, n, sc.s.parent, sc.f)
      case Fail(_) =>
      case Ok(f) =>
        IdentityDeclares(env, nodes, Advance(Scan(sc.s, f), n.name));
    } else {
      assert Inputs(env, nodes, c, c) == {};
      assert sc.f.condition + {} == sc.f.condition && sc.f.body + {} == sc.f.body;
    }
  }

  /** A successful Identity phase records one argument edge per node of the run, in
      order, and leaves the input and output variables alone. */
  lemma {:induction false} IdentityEdges(env: Env, nodes: seq<Node>, sc: Scan)
    requires sc.s.cursor <= |nodes|
    decreases |nodes| - sc.s.cursor
    ensures var r := IdentityPhase(env, nodes, sc);
            var e := RunEnd(nodes, sc.s.cursor, Identity);
            r.Ok? ==> && r.value.f.bodyArgs == sc.f.bodyArgs + Edges(env, nodes, sc.s.cursor, e)
                      && r.value.f.inputVars == sc.f.inputVars && r.value.f.outputVars == sc.f.outputVars
  {
    var c := sc.s.cursor;
    if c < |nodes| && IsIdentity(nodes[c].op) {
      var n := nodes[c];
      var e := RunEnd(nodes, c, Identity);
      assert e == RunEnd(nodes, c + 1, Identity);
      var edge := Edge(n.name, Normalized(env, n.inputs));
      assert Edges(env, nodes, c, e) == [edge] + Edges(env, nodes, c + 1, e);
      match IdentityOp(env, n, sc.s.parent, sc.f)
      case Fail(_) =>
      case Ok(f) =>
        IdentityEdges(env, nodes, Advance(Scan(sc.s, f), n.name));
        assert sc.f.bodyArgs + [edge] + Edges(env, nodes, c + 1, e) == sc.f.bodyArgs + Edges(env, nodes, c, e);
    } else {
      assert Edges(env, nodes, c, c) == [] && sc.f.bodyArgs + [] == sc.f.bodyArgs;
    }
  }

  lemma {:induction false} IdentityKeeps(env: Env, nodes: seq<Node>, sc: Scan)
    requires sc.s.cursor <= |nodes|
    decreases |nodes| - sc.s.cursor
    ensures var r := IdentityPhase(env, nodes, sc);
            r.Ok? ==> Keeps(nodes, sc, r.value)
  {
    var c := sc.s.cursor;
    if c < |nodes| && IsIdentity(nodes[c].op) {
      var n := nodes[c];
      FirstMissingMeaning(Normalized(env, n.inputs), sc.s.parent);
      match IdentityOp(env, n, sc.s.parent, sc.f)
      case Fail(_) =>
      case Ok(f) =>
        var next := Advance(Scan(sc.s, f), n.name);
        assert Keeps(nodes, sc, next);
        IdentityKeeps(env, nodes, next);
        if IdentityPhase(env, nodes, next).Ok? {
          KeepsTrans(nodes, sc, next, IdentityPhase(env, nodes, next).value);
        }
    }
  }

  // ---------------------------------------------------------------- returns

  /** NextIteration phase: it consumes exactly the run of NextIteration nodes and
      appends their normalised names, in order, to the returned variables. */
  lemma {:induction false} NextIterationConsumes(env: Env, nodes: seq<Node>, sc: Scan, returned: seq<string>)
    requires sc.s.cursor <= |nodes|
    decreases |nodes| - sc.s.cursor
    ensures var (r, ret) := NextIterationPhase(env, nodes, sc, returned);
            var e := RunEnd(nodes, sc.s.cursor, NextIteration);
            && r.s.cursor == e
            && r.s.skip == sc.s.skip + Names(nodes, sc.s.cursor, e)
            && ret == returned + NormNames(env, nodes, sc.s.cursor, e)
  {
    var c := sc.s.cursor;
    if c < |nodes| && IsNextIteration(nodes[c].op) {
      var n := nodes[c];
      var v := env.normalize(n.name);
      var next := Advance(sc, n.name);
      var e := RunEnd(nodes, c, NextIteration);
      assert e == RunEnd(nodes, c + 1, NextIteration);
      assert Names(nodes, c, e) == {n.name} + Names(nodes, c + 1, e);
      assert NormNames(env, nodes, c, e) == [v] + NormNames(env, nodes, c + 1, e);
      CreateIfAbsentMeaning(next.s, v);
      NextIterationConsumes(env, nodes, next.(s := CreateIfAbsent(next.s, v)), returned + [v]);
      assert returned + [v] + NormNames(env, nodes, c + 1, e) == returned + NormNames(env, nodes, c, e);
    } else {
      assert Names(nodes, c, c) == {} && sc.s.skip + {} == sc.s.skip;
      assert NormNames(env, nodes, c, c) == [] && returned + [] == returned;
    }
  }

  /** NextIteration phase: every returned variable is resolved or created in the
      parent; the If's own state and the registrations are untouched. */
  lemma {:induction false} NextIterationDeclares(env: Env, nodes: seq<Node>, sc: Scan, returned: seq<string>)
    requires sc.s.cursor <= |nodes|
    decreases |nodes| - sc.s.cursor
    ensures var (r, _) := NextIterationPhase(env, nodes, sc, returned);
            var added := Elems(NormNames(env, nodes, sc.s.cursor, RunEnd(nodes, sc.s.cursor, NextIteration)));
            && r.s.parent == sc.s.parent + added
            && r.s.registrations == sc.s.registrations
            && r.f == sc.f
  {
    var c := sc.s.cursor;
    if c < |nodes| && IsNextIteration(nodes[c].op) {
      var n := nodes[c];
      var v := env.normalize(n.name);
      var next := Advance(sc, n.name);
      var e := RunEnd(nodes, c, NextIteration);
      assert e == RunEnd(nodes, c + 1, NextIteration);
      assert NormNames(env, nodes, c, e) == [v] + NormNames(env, nodes, c + 1, e);
      ElemsCons(NormNames(env, nodes, c, e));
      CreateIfAbsentMeaning(next.s, v);
      NextIterationDeclares(env, nodes, next.(s := CreateIfAbsent(next.s, v)), returned + [v]);
    } else {
      assert NormNames(env, nodes, c, c) == [];
      assert Elems(NormNames(env, nodes, c, c)) == {} && sc.s.parent + {} == sc.s.parent;
    }
  }

  lemma {:induction false} NextIterationKeeps(env: Env, nodes: seq<Node>, sc: Scan, returned: seq<string>)
    requires sc.s.cursor <= |nodes|
    decreases |nodes| - sc.s.cursor
    ensures Keeps(nodes, sc, NextIterationPhase(env, nodes, sc, returned).0)
  {
    var c := sc.s.cursor;
    if c < |nodes| && IsNextIteration(nodes[c].op) {
      var n := nodes[c];
      var v := env.normalize(n.name);
      var next := Advance(sc, n.name);
      var after := next.(s := CreateIfAbsent(next.s, v));
      CreateIfAbsentMeaning(next.s, v);
      assert Keeps(nodes, sc, after);
      NextIterationKeeps(env, nodes, after, returned + [v]);
      KeepsTrans(nodes, sc, after, NextIterationPhase(env, nodes, after, returned + [v]).0);
    }
  }

  /** Exit phase: it consumes exactly the run of Exit nodes, each of which goes to the
      skip set. */
  lemma {:induction false} ExitConsumes(env: Env, nodes: seq<Node>, sc: Scan)
    requires sc.s.cursor <= |nodes|
    decreases |nodes| - sc.s.cursor
    ensures var r := ExitPhase(env, nodes, sc);
            var e := RunEnd(nodes, sc.s.cursor, Exit);
            && r.s.cursor == e
            && r.s.skip == sc.s.skip + Names(nodes, sc.s.cursor, e)
  {
    var c := sc.s.cursor;
    if c < |nodes| && IsExit(nodes[c].op) {
      var n := nodes[c];
      var next := Advance(sc, n.name);
      var e := RunEnd(nodes, c, Exit);
      assert e == RunEnd(nodes, c + 1, Exit);
      assert Names(nodes, c, e) == {n.name} + Names(nodes, c + 1, e);
      CreateIfAbsentMeaning(next.s, env.normalize(n.name));
      ExitConsumes(env, nodes, next.(s := CreateIfAbsent(next.s, env.normalize(n.name))));
    } else {
      assert Names(nodes, c, c) == {} && sc.s.skip + {} == sc.s.skip;
    }
  }

  /** Exit phase: each Exit node's normalised name is resolved or created in the
      parent; the If's own state and the registrations are untouched. */
  lemma {:induction false} ExitDeclares(env: Env, nodes: seq<Node>, sc: Scan)
    requires sc.s.cursor <= |nodes|
    decreases |nodes| - sc.s.cursor
    ensures var r := ExitPhase(env, nodes, sc);
            var added := Elems(NormNames(env, nodes, sc.s.cursor, RunEnd(nodes, sc.s.cursor, Exit)));
            && r.s.parent == sc.s.parent + added
            && r.s.registrations == sc.s.registrations
            && r.f == sc.f
  {
    var c := sc.s.cursor;
    if c < |nodes| && IsExit(nodes[c].op) {
      var n := nodes[c];
      var v := env.normalize(n.name);
      var next := Advance(sc, n.name);
      var e := RunEnd(nodes, c, Exit);
      assert e == RunEnd(nodes, c + 1, Exit);
      assert NormNames(env, nodes, c, e) == [v] + NormNames(env, nodes, c + 1, e);
      ElemsCons(NormNames(env, nodes, c, e));
      CreateIfAbsentMeaning(next.s, v);
      ExitDeclares(env, nodes, next.(s := CreateIfAbsent(next.s, v)));
    } else {
      assert NormNames(env, nodes, c, c) == [];
      assert Elems(NormNames(env, nodes, c, c)) == {} && sc.s.parent + {} == sc.s.parent;
    }
  }

  lemma {:induction false} ExitKeeps(env: Env, nodes: seq<Node>, sc: Scan)
    requires sc.s.cursor <= |nodes|
    decreases |nodes| - sc.s.cursor
    ensures Keeps(nodes, sc, ExitPhase(env, nodes, sc))
  {
    var c := sc.s.cursor;
    if c < |nodes| && IsExit(nodes[c].op) {
      var n := nodes[c];
      var v := env.normalize(n.name);
      var next := Advance(sc, n.name);
      var after := next.(s := CreateIfAbsent(next.s, v));
      CreateIfAbsentMeaning(next.s, v);
      assert Keeps(nodes, sc, after);
      ExitKeeps(env, nodes, after);
      KeepsTrans(nodes, sc, after, ExitPhase(env, nodes, after));
    }
  }

  // ---------------------------------------------------------------- branch taken

  /** `trueBodyExecuted` is `null` until the first record and afterwards always holds
      the latest record, so it never returns to `null`. */
  lemma {:induction false} BranchAfterMeaning(initial: Option<bool>, records: seq<bool>)
    decreases |records|
    ensures records == [] ==> BranchAfter(initial, records) == initial
    ensures records != [] ==> BranchAfter(initial, records) == Some(records[|records| - 1])
    ensures initial.Some? ==> BranchAfter(initial, records).Some?
  {
    if records != [] {
      BranchAfterMeaning(Some(records[0]), records[1..]);
    }
  }
}
