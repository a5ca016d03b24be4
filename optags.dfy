/** Operator-tag matching used by the If import scan.

    The structural markers (enter, merge, LoopCond, Switch, Identity,
    NextIteration, Exit) and `const` are compared with Java's
    `equalsIgnoreCase`; variable and placeholder nodes are recognised by a
    case-sensitive `startsWith` on `VariableV` and `Placeholder`. */
module OpTags {

  /** ASCII lower-casing: the part of Java's case folding that operator tags exercise. */
  function Lower(c: char): char {
    if 'A' <= c <= 'Z' then (c as int + 32) as char else c
  }

  /** `a.equalsIgnoreCase(b)` over ASCII. */
  predicate EqualsIgnoreCase(a: string, b: string) {
    |a| == |b| && forall i :: 0 <= i < |a| ==> Lower(a[i]) == Lower(b[i])
  }

  /** `s.startsWith(prefix)`, case-sensitive. */
  predicate StartsWith(s: string, prefix: string) {
    |prefix| <= |s| && s[..|prefix|] == prefix
  }

  predicate IsEnter(op: string) { EqualsIgnoreCase(op, "enter") }
  predicate IsMerge(op: string) { EqualsIgnoreCase(op, "merge") }
  predicate IsLoopCond(op: string) { EqualsIgnoreCase(op, "LoopCond") }
  predicate IsSwitch(op: string) { EqualsIgnoreCase(op, "Switch") }
  predicate IsIdentity(op: string) { EqualsIgnoreCase(op, "Identity") }
  predicate IsNextIteration(op: string) { EqualsIgnoreCase(op, "NextIteration") }
  predicate IsExit(op: string) { EqualsIgnoreCase(op, "Exit") }

  /** A node that only declares a variable: a constant, a `VariableV*` or a `Placeholder*`. */
  predicate IsDeclaration(op: string) {
    EqualsIgnoreCase(op, "const") || StartsWith(op, "VariableV") || StartsWith(op, "Placeholder")
  }

  /** Number of structural roles an operator tag plays. */
  function Roles(op: string): nat {
    (if IsEnter(op) then 1 else 0) + (if IsMerge(op) then 1 else 0)
    + (if IsLoopCond(op) then 1 else 0) + (if IsSwitch(op) then 1 else 0)
    + (if IsIdentity(op) then 1 else 0) + (if IsNextIteration(op) then 1 else 0)
    + (if IsExit(op) then 1 else 0) + (if IsDeclaration(op) then 1 else 0)
  }

  /** Every operator tag plays at most one role, so the order in which the scan tests
      the tags never decides which role a node gets. */
  lemma TagsExclusive(op: string)
    ensures Roles(op) <= 1
  {
    if IsEnter(op) { SameHead(op, "enter"); }
    if IsMerge(op) { SameHead(op, "merge"); }
    if IsLoopCond(op) { SameHead(op, "LoopCond"); }
    if IsIdentity(op) { SameHead(op, "Identity"); }
    if IsNextIteration(op) { SameHead(op, "NextIteration"); }
    if EqualsIgnoreCase(op, "const") { SameHead(op, "const"); }
    if StartsWith(op, "VariableV") { assert op[0] == "VariableV"[0]; }
    if StartsWith(op, "Placeholder") { assert op[0] == "Placeholder"[0]; }
  }

  /** A tag match fixes the length and the lower-cased first character. */
  lemma SameHead(op: string, tag: string)
    requires EqualsIgnoreCase(op, tag) && |tag| > 0
    ensures |op| == |tag| && Lower(op[0]) == Lower(tag[0])
  {
  }

  /** Structural markers match in any case; `VariableV` and `Placeholder` only as written. */
  lemma CaseSensitivity()
    ensures IsEnter("Enter") && IsEnter("ENTER") && IsLoopCond("loopcond")
    ensures IsDeclaration("Const") && IsDeclaration("VariableV2") && IsDeclaration("PlaceholderWithDefault")
    ensures !IsDeclaration("variablev2") && !IsDeclaration("placeholder") && !IsDeclaration("Variable")
  {
    assert "VariableV2"[..9] == "VariableV";
    assert "PlaceholderWithDefault"[..11] == "Placeholder";
    assert "variablev2"[..9] != "VariableV" by { assert "variablev2"[0] != "VariableV"[0]; }
    assert "placeholder"[..11] != "Placeholder" by { assert "placeholder"[0] != "Placeholder"[0]; }
    assert !EqualsIgnoreCase("variablev2", "const");
    assert !EqualsIgnoreCase("placeholder", "const");
    assert !EqualsIgnoreCase("Variable", "const");
  }
}
