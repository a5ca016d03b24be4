/** A nested loop makes the outer true-body scan skip a node.

    When the true-body scan of If.java meets an Enter node it runs a nested import
    on the shared cursor (If.java:456-460). The nested import returns with the
    cursor on the first node it did not consume; the outer loop then runs its
    increment (If.java:424) and so never looks at that node. When the node is the
    outer loop's own NextIteration, the outer If's returned variables are lost.

    `Lost` is a graph that shows it: an outer loop whose body holds an inner loop. */
module ImportFindings {
  import opened OpTags
  import opened ImportModel
  import opened ImportProofs

  /** Names are used as they are, and no op is registered (the graph has none to create). */
  const Plain := Env(name => name, {})

  const Lost: seq<Node> := [
    Node("e0", "Enter", []),
    Node("c0", "LoopCond", []),
    Node("e1", "Enter", []),
    Node("c1", "LoopCond", []),
    Node("n1", "NextIteration", []),
    Node("x1", "Exit", []),
    Node("n0", "NextIteration", [])
  ]

  /** The roles the operator tags of `Lost` play, as far as the scan tests them. */
  lemma LostTags()
    ensures IsEnter("Enter") && !IsSwitch("Enter") && !IsIdentity("Enter") && !IsNextIteration("Enter")
    ensures IsLoopCond("LoopCond") && !IsEnter("LoopCond") && !IsMerge("LoopCond")
    ensures IsNextIteration("NextIteration") && !IsSwitch("NextIteration") && !IsIdentity("NextIteration")
    ensures !IsExit("NextIteration")
    ensures IsExit("Exit") && !IsNextIteration("Exit")
  {
  }

  /** `n0` differs from every other name of `Lost`. */
  lemma LostNames()
    ensures "n0" !in InnerDone.s.skip && "n0" !in InnerDone.s.parent
  {
    assert "n0"[0] != "e0"[0] && "n0"[0] != "c0"[0] && "n0"[0] != "e1"[0];
    assert "n0"[0] != "c1"[0] && "n0"[1] != "n1"[1] && "n0"[0] != "x1"[0];
  }

  /** The session and the outer If after the phases before the true body: `e0` and
      `c0` are consumed, and the stop node `c0` of the Merge phase is declared in the
      true body. */
  const OuterScoped := Scan(Session(2, {"e0", "c0"}, {}, [], []), Frame({}, {"c0"}, [], [], []))

  lemma OuterScopes()
    ensures Scopes(Plain, Lost, Begin(InitialSession({}), EmptyFrame)) == OuterScoped
    ensures IdentityPhase(Plain, Lost, OuterScoped) == Ok(OuterScoped)
  {
    LostTags();
    var begun := Begin(InitialSession({}), EmptyFrame);
    assert Normalized(Plain, []) == [];
    var entered := Scan(Session(1, {"e0"}, {}, [], []), EmptyFrame);
    assert EnterStep(Plain, Lost[0], begun) == entered;
    assert EnterPhase(Plain, Lost, begun) == entered;
    var merged := Scan(Session(1, {"e0"}, {}, [], []), Frame({}, {"c0"}, [], [], []));
    assert MergePhase(Plain, Lost, entered) == merged;
    assert PredicatePhase(Lost, merged) == OuterScoped;
  }

  /** The inner If after the phases before its true body: `e1` and `c1` are consumed. */
  const InnerScoped := Scan(Session(4, {"e0", "c0", "e1", "c1"}, {}, [], []), Frame({}, {"c1"}, [], [], []))

  /** The inner If after its import: `n1` is returned and registered, `x1` is consumed,
      and the cursor rests on `n0`. */
  const InnerDone := Scan(Session(6, {"e0", "c0", "e1", "c1", "n1", "x1"}, {"n1", "x1"}, ["n1", "x1"],
                                  [Registration(["n1"], [])]),
                          Frame({}, {"c1"}, [], ["n1"], []))

  lemma InnerScopes()
    ensures Scopes(Plain, Lost, Begin(OuterScoped.s, EmptyFrame)) == InnerScoped
    ensures IdentityPhase(Plain, Lost, InnerScoped) == Ok(InnerScoped)
  {
    LostTags();
    var begun := Begin(OuterScoped.s, EmptyFrame);
    assert Normalized(Plain, []) == [];
    var entered := Scan(Session(3, {"e0", "c0", "e1"}, {}, [], []), EmptyFrame);
    assert EnterStep(Plain, Lost[2], begun) == entered;
    assert EnterPhase(Plain, Lost, begun) == entered;
    var merged := Scan(Session(3, {"e0", "c0", "e1"}, {}, [], []), Frame({}, {"c1"}, [], [], []));
    assert MergePhase(Plain, Lost, entered) == merged;
    assert PredicatePhase(Lost, merged) == InnerScoped;
  }

  lemma InnerBody(resume: Resume)
    ensures BodyPhase(Plain, Lost, resume, 2, InnerScoped) == Ok(InnerScoped)
  {
    LostTags();
  }

  /** The inner If's NextIteration and Exit phases. */
  lemma InnerConclude()
    ensures Conclude(Plain, Lost, InnerScoped) == InnerDone
  {
    var stepped := Scan(Session(5, {"e0", "c0", "e1", "c1", "n1"}, {"n1"}, ["n1"], []), InnerScoped.f);
    InnerReturns(stepped);
    var fin := Finalize(stepped, ["n1"]);
    InnerExits(fin);
  }

  lemma InnerReturns(stepped: Scan)
    requires stepped == Scan(Session(5, {"e0", "c0", "e1", "c1", "n1"}, {"n1"}, ["n1"], []), InnerScoped.f)
    ensures NextIterationPhase(Plain, Lost, InnerScoped, []) == (stepped, ["n1"])
  {
    LostTags();
    assert Plain.normalize("n1") == "n1";
    var adv := Advance(InnerScoped, "n1");
    assert CreateIfAbsent(adv.s, "n1") == stepped.s;
    assert NextIterationPhase(Plain, Lost, InnerScoped, []) == NextIterationPhase(Plain, Lost, stepped, ["n1"]);
  }

  lemma InnerExits(fin: Scan)
    requires fin == Finalize(Scan(Session(5, {"e0", "c0", "e1", "c1", "n1"}, {"n1"}, ["n1"], []), InnerScoped.f), ["n1"])
    ensures ExitPhase(Plain, Lost, fin) == InnerDone
  {
    LostTags();
    assert Plain.normalize("x1") == "x1";
    var adv := Advance(fin, "x1");
    assert CreateIfAbsent(adv.s, "x1") == InnerDone.s;
    assert ExitPhase(Plain, Lost, fin) == ExitPhase(Plain, Lost, InnerDone);
  }

  lemma InnerImport(resume: Resume)
    ensures Import(Plain, Lost, resume, OuterScoped.s, EmptyFrame) == Ok(InnerDone)
  {
    InnerScopes();
    InnerBody(resume);
    InnerConclude();
  }

  /** A true-body step at an Enter node that is not in the skip set runs the nested
      import and goes on after it. */
  lemma BodyEnterStep(env: Env, nodes: seq<Node>, resume: Resume, start: nat, sc: Scan, nested: Scan)
    requires start < sc.s.cursor < |nodes|
    requires nodes[sc.s.cursor].name !in sc.s.skip
    requires IsEnter(nodes[sc.s.cursor].op) && !IsNextIteration(nodes[sc.s.cursor].op)
    requires Import(env, nodes, resume, sc.s, EmptyFrame) == Ok(nested)
    ensures BodyPhase(env, nodes, resume, start, sc)
            == BodyPhase(env, nodes, resume, start, Scan(AfterNested(resume, nested.s, nodes[sc.s.cursor].name), sc.f))
  {
  }

  /** The outer true-body scan meets `e1` and runs the inner import. */
  lemma OuterNested(resume: Resume)
    ensures BodyPhase(Plain, Lost, resume, 0, OuterScoped)
            == BodyPhase(Plain, Lost, resume, 0, Scan(AfterNested(resume, InnerDone.s, "e1"), OuterScoped.f))
  {
    LostTags();
    assert "e1"[1] != "e0"[1] && "e1"[0] != "c0"[0];
    assert OuterScoped.s.cursor == 2 && Lost[2].name == "e1" && Lost[2].op == "Enter";
    InnerImport(resume);
    BodyEnterStep(Plain, Lost, resume, 0, OuterScoped, InnerDone);
  }

  /** After the inner import the outer scan resumes past its stop node `n0` as written,
      or on it as corrected. */
  lemma OuterBody(resume: Resume)
    ensures BodyPhase(Plain, Lost, resume, 0, OuterScoped)
            == Ok(Scan(InnerDone.s.(cursor := if resume == PastStopNode then 7 else 6), OuterScoped.f))
  {
    OuterNested(resume);
    var next := Scan(AfterNested(resume, InnerDone.s, "e1"), OuterScoped.f);
    assert InnerDone.s.skip + {"e1"} == InnerDone.s.skip;
    assert next == Scan(InnerDone.s.(cursor := if resume == PastStopNode then 7 else 6), OuterScoped.f);
    if resume == AtStopNode {
      LostTags();
      LostNames();
    }
  }

  /** As written: the outer If's NextIteration phase starts past the end of the list. */
  lemma OuterConcludePast()
    ensures var r := Conclude(Plain, Lost, Scan(InnerDone.s.(cursor := 7), OuterScoped.f));
            && r.s.cursor == 7 && "n0" !in r.s.skip && r.f.inputVars == []
  {
  }

  /** Corrected: the outer If's NextIteration phase consumes and returns `n0`. */
  lemma OuterConcludeAt()
    ensures var r := Conclude(Plain, Lost, Scan(InnerDone.s, OuterScoped.f));
            && r.s.cursor == 7 && "n0" in r.s.skip && r.f.inputVars == ["n0"]
  {
    var sc := Scan(InnerDone.s, OuterScoped.f);
    var stepped := OuterReturn();
    assert Conclude(Plain, Lost, sc) == ExitPhase(Plain, Lost, Finalize(stepped, ["n0"]));
  }

  /** The outer If's one NextIteration step. */
  lemma OuterReturn() returns (stepped: Scan)
    ensures NextIterationPhase(Plain, Lost, Scan(InnerDone.s, OuterScoped.f), []) == (stepped, ["n0"])
    ensures stepped.s.cursor == 7 && "n0" in stepped.s.skip
  {
    LostTags();
    LostNames();
    var sc := Scan(InnerDone.s, OuterScoped.f);
    assert Plain.normalize("n0") == "n0";
    var adv := Advance(sc, "n0");
    stepped := adv.(s := CreateIfAbsent(adv.s, "n0"));
    assert sc.s.cursor == 6 && Lost[6].name == "n0" && IsNextIteration(Lost[6].op);
    assert [] + ["n0"] == ["n0"];
    assert NextIterationPhase(Plain, Lost, sc, []) == NextIterationPhase(Plain, Lost, stepped, ["n0"]);
  }

  /** As written: the nested import stops on `n0`, the outer scan steps past it, so the
      outer If returns no variable and `n0` is never consumed. */
  lemma AsWrittenSkipsStopNode()
    ensures var r := Import(Plain, Lost, PastStopNode, InitialSession({}), EmptyFrame);
            && r.Ok?
            && r.value.s.cursor == |Lost|
            && "n0" !in r.value.s.skip
            && r.value.f.inputVars == []
  {
    OuterScopes();
    OuterBody(PastStopNode);
    OuterConcludePast();
  }

  /** Corrected: the outer scan resumes on `n0`, stops there, and the NextIteration
      phase returns it as the outer If's input variable. */
  lemma CorrectedKeepsStopNode()
    ensures var r := Import(Plain, Lost, AtStopNode, InitialSession({}), EmptyFrame);
            && r.Ok?
            && r.value.s.cursor == |Lost|
            && "n0" in r.value.s.skip
            && r.value.f.inputVars == ["n0"]
  {
    OuterScopes();
    OuterBody(AtStopNode);
    OuterConcludeAt();
  }
}
