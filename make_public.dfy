/**
 * The "Make public" refactoring: offered on a type declaration that has no
 * `public` modifier; it appends one and writes the rebuilt tree back to the
 * document.
 */
module MakePublicProvider {
  import opened Wrappers
  import opened Linq
  import opened Syntax

  function IsPublicKeyword(m: Modifier): bool { m == PublicKeyword }

  /** The action offered for a selection: exactly on type declarations without `public`. */
  function ComputeRefactorings(doc: DocumentId, cu: CompilationUnit, sel: Selection): (r: Option<CodeAction>)
    requires ValidSelection(cu, sel)
    ensures r.Some? <==>
      SelectedMember(cu, sel).Some? && IsTypeDeclaration(SelectedMember(cu, sel).value.kind) &&
      PublicKeyword !in SelectedMember(cu, sel).value.mods
    ensures r.Some? ==> r.value == CodeAction("Make public", MakePublicEdit(doc, sel))
  {
    match AsTypeDeclaration(cu, sel)
    case None => None
    case Some(typeDecl) =>
      if Any(typeDecl.mods, IsPublicKeyword) then None
      else Some(CodeAction("Make public", MakePublicEdit(doc, sel)))
  }

  /** `cls.AddModifiers(Token(PublicKeyword))`: appends the keyword whether or not it is present. */
  function AddPublicModifier(cls: Member): Member {
    cls.(mods := cls.mods + [PublicKeyword])
  }

  /**
   * The solution after the action. The declaration must be a class whose
   * parent is a namespace: otherwise one of the two casts yields null and the
   * edit faults.
   */
  function MakePublic(s: Solution, doc: DocumentId, sel: Selection): (r: Solution)
    requires doc < |s.documents|
    requires sel.InNamespace? && ValidSelection(s.documents[doc].root, sel)
    requires Target(s.documents[doc].root, sel).kind == ClassDeclaration
    ensures |r.documents| == |s.documents|
    ensures forall j :: 0 <= j < |s.documents| && j != doc ==> r.documents[j] == s.documents[j]
    ensures r.documents[doc].name == s.documents[doc].name
    ensures var cu, cu' := s.documents[doc].root, r.documents[doc].root;
      // the same position still names the (rebuilt) class
      ValidSelection(cu', sel) &&
      Target(cu', sel).kind == Target(cu, sel).kind && Target(cu', sel).id == Target(cu, sel).id &&
      Target(cu', sel).mods == Target(cu, sel).mods + [PublicKeyword] &&
      // only the enclosing namespace is replaced in the compilation unit
      cu'.usings == cu.usings && |cu'.members| == |cu.members| &&
      (forall j :: 0 <= j < |cu.members| && j != sel.nsIndex ==> cu'.members[j] == cu.members[j]) &&
      // only the target is replaced in the namespace
      Enclosing(cu', sel).name == Enclosing(cu, sel).name &&
      |Enclosing(cu', sel).members| == |Enclosing(cu, sel).members| &&
      (forall j :: 0 <= j < |Enclosing(cu, sel).members| && j != sel.index ==>
        Enclosing(cu', sel).members[j] == Enclosing(cu, sel).members[j])
  {
    var cu := s.documents[doc].root;
    var ns := Enclosing(cu, sel);
    var cls := AddPublicModifier(Target(cu, sel));
    var newNs := ns.(members := ns.members[sel.index := cls]);
    var newCu := cu.(members := cu.members[sel.nsIndex := NamespaceMember(newNs)]);
    WithDocumentRoot(s, doc, newCu)
  }

  /** After the edit the type has `public`, so the action is no longer offered on it. */
  lemma NotOfferedAgain(s: Solution, doc: DocumentId, sel: Selection, doc': DocumentId)
    requires doc < |s.documents|
    requires sel.InNamespace? && ValidSelection(s.documents[doc].root, sel)
    requires Target(s.documents[doc].root, sel).kind == ClassDeclaration
    ensures ComputeRefactorings(doc', MakePublic(s, doc, sel).documents[doc].root, sel).None?
  {
    var cu' := MakePublic(s, doc, sel).documents[doc].root;
    var mods := Target(cu', sel).mods;
    assert mods[|mods| - 1] == PublicKeyword;
  }

  /**
   * Invoked where it was offered, the edit leaves exactly one `public` among
   * the modifiers, and every earlier modifier (`internal`, `private`, ...) is
   * still there, in its place.
   */
  lemma ExactlyOnePublicAfterEdit(s: Solution, doc: DocumentId, sel: Selection)
    requires doc < |s.documents|
    requires sel.InNamespace? && ValidSelection(s.documents[doc].root, sel)
    requires Target(s.documents[doc].root, sel).kind == ClassDeclaration
    requires ComputeRefactorings(doc, s.documents[doc].root, sel).Some?
    ensures var before, after := Target(s.documents[doc].root, sel).mods,
                                 Target(MakePublic(s, doc, sel).documents[doc].root, sel).mods;
      multiset(after)[PublicKeyword] == 1 &&
      after[..|before|] == before
  {
    var before := Target(s.documents[doc].root, sel).mods;
    var after := Target(MakePublic(s, doc, sel).documents[doc].root, sel).mods;
    assert multiset(before)[PublicKeyword] == 0;
    assert multiset(after) == multiset(before) + multiset{PublicKeyword};
  }

  /**
   * The offer is wider than the edit: a struct in a namespace and a class at
   * top level are both offered "Make public", though neither meets the edit's
   * requirements.
   */
  lemma OfferedWhereEditFaults()
    ensures var st := Member(StructDeclaration, "S", []);
      var cu := CompilationUnit([], [NamespaceMember(Namespace("N", [st]))]);
      ComputeRefactorings(0, cu, InNamespace(0, 0)).Some? && Target(cu, InNamespace(0, 0)).kind != ClassDeclaration
    ensures var c := Member(ClassDeclaration, "C", [InternalKeyword]);
      var cu := CompilationUnit([], [TypeMember(c)]);
      ComputeRefactorings(0, cu, InCompilationUnit(0)).Some? && !InCompilationUnit(0).InNamespace?
  {
  }

  /** A declaration that is already `public` is not offered the action. */
  lemma PublicClassNotOffered()
    ensures var c := Member(ClassDeclaration, "D", [PublicKeyword, SealedKeyword]);
      var cu := CompilationUnit([], [NamespaceMember(Namespace("N", [c]))]);
      ComputeRefactorings(0, cu, InNamespace(0, 0)).None?
  {
    var mods := [PublicKeyword, SealedKeyword];
    assert IsPublicKeyword(mods[0]);
  }
}
