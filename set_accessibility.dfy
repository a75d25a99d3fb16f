/**
 * The accessibility menu: on a type declaration, one "Make <keyword>" action
 * for every entry of a fixed four-entry table whose level differs from the
 * type's declared accessibility.
 */
module SetAccessibilityProvider {
  import opened Linq
  import opened Syntax

  /** The table of offered levels, keyed by the keyword shown in the action's title, in enumeration order. */
  const AccessibilityModifiers: seq<(string, Accessibility)> :=
    [("private", Private), ("internal", Internal), ("protected", Protected), ("public", Public)]

  /** The C# modifier text that declares each accessibility level. */
  function Keyword(a: Accessibility): (text: string) {
    match a
    case NotApplicable => ""
    case Private => "private"
    case ProtectedAndInternal => "private protected"
    case Protected => "protected"
    case Internal => "internal"
    case ProtectedOrInternal => "protected internal"
    case Public => "public"
  }

  /** The levels declared by a single keyword. */
  predicate IsSingleKeywordLevel(a: Accessibility) {
    a == Private || a == Internal || a == Protected || a == Public
  }

  /**
   * Every table entry is keyed by the keyword of its own level, no level
   * appears twice, and the table holds exactly the single-keyword levels.
   */
  lemma TableIsWellFormed(a: Accessibility)
    ensures |AccessibilityModifiers| == 4
    ensures forall i :: 0 <= i < 4 ==> AccessibilityModifiers[i].0 == Keyword(AccessibilityModifiers[i].1)
    ensures forall i, j :: 0 <= i < j < 4 ==> AccessibilityModifiers[i].1 != AccessibilityModifiers[j].1
    ensures (exists i :: 0 <= i < 4 && AccessibilityModifiers[i].1 == a) <==> IsSingleKeywordLevel(a)
  {
    if IsSingleKeywordLevel(a) {
      var i := if a == Private then 0 else if a == Internal then 1 else if a == Protected then 2 else 3;
      assert AccessibilityModifiers[i].1 == a;
    }
  }

  function Differs(declared: Accessibility): ((string, Accessibility)) -> bool {
    (m: (string, Accessibility)) => declared != m.1
  }

  /** The table entries left by `Where(m => symbol.DeclaredAccessibility != m.Value)`. */
  function Candidates(declared: Accessibility): (entries: seq<(string, Accessibility)>) {
    Where(AccessibilityModifiers, Differs(declared))
  }

  /**
   * The entries left are those of the table whose level differs from the
   * declared one, in table order: three when the declared level is in the
   * table, all four otherwise (protected internal, private protected, not
   * applicable).
   */
  lemma CandidatesSpec(declared: Accessibility)
    ensures forall e :: e in Candidates(declared) <==> e in AccessibilityModifiers && e.1 != declared
    ensures IsSubsequence(Candidates(declared), AccessibilityModifiers)
    ensures |Candidates(declared)| == if IsSingleKeywordLevel(declared) then 3 else 4
  {
    forall e {
      WhereMembership(AccessibilityModifiers, Differs(declared), e);
    }
    WhereIsSubsequence(AccessibilityModifiers, Differs(declared));
    var t := AccessibilityModifiers;
    assert t[1..] == [t[1], t[2], t[3]] && t[1..][1..] == [t[2], t[3]] && t[1..][1..][1..] == [t[3]];
  }

  /** Three candidates when the declared level is in the table, four otherwise. */
  lemma CandidatesCount(declared: Accessibility)
    ensures |Candidates(declared)| == if IsSingleKeywordLevel(declared) then 3 else 4
  {
    CandidatesSpec(declared);
  }

  /** The table's key matches its level's keyword and names a single-keyword level. */
  function KeyedByKeyword(e: (string, Accessibility)): bool {
    e.0 == Keyword(e.1) && IsSingleKeywordLevel(e.1)
  }

  /** Every candidate entry is keyed by its level's keyword and differs from the declared level. */
  lemma CandidatesKeyed(declared: Accessibility)
    ensures forall i :: 0 <= i < |Candidates(declared)| ==>
      KeyedByKeyword(Candidates(declared)[i]) && Candidates(declared)[i].1 != declared
  {
    WherePreserves(AccessibilityModifiers, Differs(declared), KeyedByKeyword);
  }

  /**
   * `Select(kvp => CodeAction.Create($"Make {kvp.Key}", ...))`: one action per
   * entry, in order, titled "Make " and the entry's key, editing the given
   * declaration with the entry's level.
   */
  function ActionsFrom(doc: DocumentId, sel: Selection, entries: seq<(string, Accessibility)>): (r: seq<CodeAction>)
    ensures |r| == |entries|
    ensures forall i :: 0 <= i < |entries| ==>
      r[i] == CodeAction("Make " + entries[i].0, SetAccessibilityEdit(doc, sel, entries[i].1))
  {
    if entries == [] then []
    else [CodeAction("Make " + entries[0].0, SetAccessibilityEdit(doc, sel, entries[0].1))] + ActionsFrom(doc, sel, entries[1..])
  }

  /**
   * The actions offered for a selection whose symbol declares `declared`.
   * None unless the selection is a type declaration; otherwise one per
   * candidate entry, each titled "Make " and the entry's keyword, each editing
   * the same document and declaration and carrying its own entry's level.
   */
  function OfferedActions(doc: DocumentId, cu: CompilationUnit, sel: Selection, declared: Accessibility): (r: seq<CodeAction>)
    requires ValidSelection(cu, sel)
    ensures AsTypeDeclaration(cu, sel).None? ==> r == []
    ensures AsTypeDeclaration(cu, sel).Some? ==> |r| == if IsSingleKeywordLevel(declared) then 3 else 4
    ensures forall i :: 0 <= i < |r| ==>
      r[i].edit.SetAccessibilityEdit? && r[i].edit.doc == doc && r[i].edit.target == sel &&
      r[i].edit.level != declared && IsSingleKeywordLevel(r[i].edit.level) &&
      r[i].title == "Make " + Keyword(r[i].edit.level)
  {
    match AsTypeDeclaration(cu, sel)
    case None => []
    case Some(_) =>
      CandidatesCount(declared);
      CandidatesKeyed(declared);
      ActionsFrom(doc, sel, Candidates(declared))
  }

  /**
   * On a type declaration, a table level is offered exactly when it differs
   * from the declared one; the declared level is never offered.
   */
  lemma OfferedExactlyWhenDifferent(doc: DocumentId, cu: CompilationUnit, sel: Selection, declared: Accessibility, k: nat)
    requires ValidSelection(cu, sel) && AsTypeDeclaration(cu, sel).Some?
    requires k < |AccessibilityModifiers|
    ensures var r, e := OfferedActions(doc, cu, sel, declared), AccessibilityModifiers[k];
      (exists i :: 0 <= i < |r| && r[i].edit.level == e.1) <==> e.1 != declared
  {
    var r, e := OfferedActions(doc, cu, sel, declared), AccessibilityModifiers[k];
    var candidates := Candidates(declared);
    WhereMembership(AccessibilityModifiers, Differs(declared), e);
    if e.1 != declared {
      assert e in candidates;
      var i :| 0 <= i < |candidates| && candidates[i] == e;
      assert r[i].edit.level == e.1;
    }
  }

  /**
   * `foreach (var action in actions) context.RegisterRefactoring(action)`:
   * every action is registered once, in order, after what was already
   * registered.
   */
  method RegisterEach(context: RefactoringContext, actions: seq<CodeAction>)
    modifies context
    ensures context.registered == old(context.registered) + actions
  {
    ghost var before := context.registered;
    for i := 0 to |actions|
      invariant |context.registered| == |before| + i
      invariant context.registered[..|before|] == before
      invariant forall j :: 0 <= j < i ==> context.registered[|before| + j] == actions[j]
    {
      context.RegisterRefactoring(actions[i]);
    }
    assert context.registered == before + actions;
  }

  /**
   * The provider's entry point: computes the offered actions (none unless the
   * selection is a type declaration) and registers each of them.
   */
  method ComputeRefactorings(context: RefactoringContext, doc: DocumentId, cu: CompilationUnit, sel: Selection, declared: Accessibility)
    requires ValidSelection(cu, sel)
    modifies context
    ensures context.registered == old(context.registered) + OfferedActions(doc, cu, sel, declared)
  {
    var actions := OfferedActions(doc, cu, sel, declared);
    RegisterEach(context, actions);
  }
}
