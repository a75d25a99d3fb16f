/**
 * The "Move to <Type>.cs" refactoring: offered on a type declared in a
 * namespace that holds at least two classes; it adds a document for the type
 * and rewrites the original document.
 */
module MoveToFileProvider {
  import opened Wrappers
  import opened Linq
  import opened Syntax

  function OfKind(k: Kind): (p: Member -> bool) { (m: Member) => m.kind == k }

  function NotOfKind(k: Kind): (p: Member -> bool) { (m: Member) => m.kind != k }

  /**
   * The action offered for a selection. It is offered exactly when the
   * selection is a type declaration whose parent is a namespace holding at
   * least two members of the exact kind class, whatever the target's own kind.
   */
  function ComputeRefactorings(doc: DocumentId, cu: CompilationUnit, sel: Selection): (r: Option<CodeAction>)
    requires ValidSelection(cu, sel)
    ensures r.Some? <==>
      sel.InNamespace? && IsTypeDeclaration(Target(cu, sel).kind) &&
      |Where(Enclosing(cu, sel).members, OfKind(ClassDeclaration))| >= 2
    ensures r.Some? ==>
      r.value == CodeAction("Move to " + Target(cu, sel).id + ".cs", MoveToFileEdit(doc, sel))
  {
    match AsTypeDeclaration(cu, sel)
    case None => None
    case Some(typeDecl) =>
      match ParentNamespace(cu, sel)
      case None => None
      case Some(ns) =>
        if Count(ns.members, OfKind(ClassDeclaration)) <= 1 then None
        else Some(CodeAction("Move to " + typeDecl.id + ".cs", MoveToFileEdit(doc, sel)))
  }

  /**
   * What `RemoveNodes` leaves of a namespace's members when the nodes to remove
   * are those at a position other than `target` whose kind is `k`.
   */
  function WithoutSameKindSiblings(ms: seq<Member>, target: int, k: Kind): (r: seq<Member>)
    decreases |ms|
  {
    if ms == [] then []
    else if target != 0 && ms[0].kind == k then WithoutSameKindSiblings(ms[1..], target - 1, k)
    else [ms[0]] + WithoutSameKindSiblings(ms[1..], target - 1, k)
  }

  /** With no target position in range, only the members of another kind are kept. */
  lemma {:induction false} WithoutSameKindSiblingsNoTarget(ms: seq<Member>, target: int, k: Kind)
    requires target < 0
    ensures WithoutSameKindSiblings(ms, target, k) == Where(ms, NotOfKind(k))
    decreases |ms|
  {
    if ms != [] {
      WithoutSameKindSiblingsNoTarget(ms[1..], target - 1, k);
    }
  }

  lemma ConcatAssociative<T>(a: seq<T>, b: seq<T>, c: seq<T>)
    ensures (a + b) + c == a + (b + c)
  {
  }

  /** Positions in the tail of a sequence, seen from the whole sequence. */
  lemma SliceAfterHead<T>(ms: seq<T>, t: nat)
    requires 0 < t < |ms|
    ensures ms[1..][..t - 1] == ms[1..t] && ms[1..][t - 1] == ms[t] && ms[1..][t..] == ms[t + 1..]
    ensures ms[..t] == [ms[0]] + ms[1..t]
  {
  }

  /** One step of the removal: the first member is kept exactly when it is of another kind. */
  lemma WithoutSameKindSiblingsStep(ms: seq<Member>, target: int, k: Kind)
    requires ms != [] && target != 0
    ensures WithoutSameKindSiblings(ms, target, k) ==
      Where([ms[0]], NotOfKind(k)) + WithoutSameKindSiblings(ms[1..], target - 1, k)
  {
    assert [ms[0]][1..] == [];
  }

  /**
   * The kept members by position: the members of another kind before the
   * target, the target itself, then the members of another kind after it.
   */
  lemma {:induction false} WithoutSameKindSiblingsClosedForm(ms: seq<Member>, target: nat, k: Kind)
    requires target < |ms|
    ensures WithoutSameKindSiblings(ms, target, k) ==
      Where(ms[..target], NotOfKind(k)) + ([ms[target]] + Where(ms[target + 1..], NotOfKind(k)))
    decreases |ms|
  {
    var p := NotOfKind(k);
    if target == 0 {
      WithoutSameKindSiblingsNoTarget(ms[1..], -1, k);
      assert ms[..0] == [];
    } else {
      var rest := ms[1..];
      var head := Where([ms[0]], p);
      var before, after := Where(ms[1..target], p), Where(ms[target + 1..], p);
      WithoutSameKindSiblingsStep(ms, target, k);
      WithoutSameKindSiblingsClosedForm(rest, target - 1, k);
      SliceAfterHead(ms, target);
      WhereConcat([ms[0]], ms[1..target], p);
      assert Where(ms[..target], p) == head + before;
      ConcatAssociative(head, before, [ms[target]] + after);
    }
  }

  /**
   * Of the members of kind `k` only the one at `target` survives; every member
   * of another kind survives; the order is kept.
   */
  lemma {:induction false} WithoutSameKindSiblingsSpec(ms: seq<Member>, target: int, k: Kind)
    ensures Where(WithoutSameKindSiblings(ms, target, k), NotOfKind(k)) == Where(ms, NotOfKind(k))
    ensures Where(WithoutSameKindSiblings(ms, target, k), OfKind(k)) ==
      if 0 <= target < |ms| && ms[target].kind == k then [ms[target]] else []
    ensures IsSubsequence(WithoutSameKindSiblings(ms, target, k), ms)
    ensures 0 <= target < |ms| ==>
      WithoutSameKindSiblings(ms, target, k) ==
        Where(ms[..target], NotOfKind(k)) + ([ms[target]] + Where(ms[target + 1..], NotOfKind(k)))
    decreases |ms|
  {
    if 0 <= target < |ms| {
      WithoutSameKindSiblingsClosedForm(ms, target, k);
    }
    if ms != [] {
      var rest := WithoutSameKindSiblings(ms[1..], target - 1, k);
      WithoutSameKindSiblingsSpec(ms[1..], target - 1, k);
      if 0 < target < |ms| {
        assert ms[target] == ms[1..][target - 1];
      }
      if !(target != 0 && ms[0].kind == k) {
        assert ([ms[0]] + rest)[1..] == rest;
      }
    }
  }

  /** `list.RemoveNode(node)`: the member at `i` removed, the others kept in order. */
  function RemoveAt(ms: seq<Member>, i: nat): (r: seq<Member>)
    requires i < |ms|
    ensures |r| == |ms| - 1
    ensures forall j :: 0 <= j < |r| ==> r[j] == ms[if j < i then j else j + 1]
  {
    ms[..i] + ms[i + 1..]
  }

  /** Removing one member takes exactly that member out of every filtered view. */
  lemma RemoveAtWhere(ms: seq<Member>, i: nat, p: Member -> bool)
    requires i < |ms|
    ensures !p(ms[i]) ==> Where(RemoveAt(ms, i), p) == Where(ms, p)
    ensures |Where(RemoveAt(ms, i), p)| == |Where(ms, p)| - (if p(ms[i]) then 1 else 0)
  {
    assert ms == ms[..i] + ([ms[i]] + ms[i + 1..]);
    WhereConcat(ms[..i], [ms[i]] + ms[i + 1..], p);
    WhereConcat([ms[i]], ms[i + 1..], p);
    WhereConcat(ms[..i], ms[i + 1..], p);
  }

  /**
   * The new document: the original using directives and a copy of the
   * enclosing namespace from which every other member of the target's kind
   * has been removed.
   */
  function NewFile(cu: CompilationUnit, sel: Selection): (r: CompilationUnit)
    requires sel.InNamespace? && ValidSelection(cu, sel)
    ensures r.usings == cu.usings
    ensures |r.members| == 1 && r.members[0].NamespaceMember?
    ensures r.members[0].ns.name == Enclosing(cu, sel).name
    ensures var kept, ms, k := r.members[0].ns.members, Enclosing(cu, sel).members, Target(cu, sel).kind;
      Where(kept, OfKind(k)) == [Target(cu, sel)] &&
      Where(kept, NotOfKind(k)) == Where(ms, NotOfKind(k)) &&
      IsSubsequence(kept, ms) &&
      // the target keeps its place among the members of other kinds
      kept == Where(ms[..sel.index], NotOfKind(k)) + ([Target(cu, sel)] + Where(ms[sel.index + 1..], NotOfKind(k)))
  {
    var ns := Enclosing(cu, sel);
    var kept := WithoutSameKindSiblings(ns.members, sel.index, Target(cu, sel).kind);
    WithoutSameKindSiblingsSpec(ns.members, sel.index, Target(cu, sel).kind);
    CompilationUnit(cu.usings, [NamespaceMember(Namespace(ns.name, kept))])
  }

  /**
   * The original document afterwards: its using directives, and as its only
   * member the enclosing namespace with just the target removed. Any other
   * top-level member of the original document is dropped.
   */
  function RemainingFile(cu: CompilationUnit, sel: Selection): (r: CompilationUnit)
    requires sel.InNamespace? && ValidSelection(cu, sel)
    ensures r.usings == cu.usings
    ensures |r.members| == 1 && r.members[0].NamespaceMember?
    ensures r.members[0].ns.name == Enclosing(cu, sel).name
    ensures var rest, ms := r.members[0].ns.members, Enclosing(cu, sel).members;
      |rest| == |ms| - 1 &&
      forall j :: 0 <= j < |rest| ==> rest[j] == ms[if j < sel.index then j else j + 1]
  {
    var ns := Enclosing(cu, sel);
    CompilationUnit(cu.usings, [NamespaceMember(Namespace(ns.name, RemoveAt(ns.members, sel.index)))])
  }

  /**
   * The solution after the action: a document named after the type is added
   * and the original document's root is replaced; no other document changes.
   */
  function MoveToFile(s: Solution, doc: DocumentId, sel: Selection): (r: Solution)
    requires doc < |s.documents|
    requires sel.InNamespace? && ValidSelection(s.documents[doc].root, sel)
    ensures |r.documents| == |s.documents| + 1
    ensures forall j :: 0 <= j < |s.documents| && j != doc ==> r.documents[j] == s.documents[j]
    ensures r.documents[doc] ==
      Document(s.documents[doc].name, RemainingFile(s.documents[doc].root, sel))
    ensures r.documents[|s.documents|] ==
      Document(Target(s.documents[doc].root, sel).id + ".cs", NewFile(s.documents[doc].root, sel))
  {
    var cu := s.documents[doc].root;
    var newName := Target(cu, sel).id + ".cs";
    var withNewFile := AddDocument(s, newName, NewFile(cu, sel));
    WithDocumentRoot(withNewFile, doc, RemainingFile(cu, sel))
  }

  /**
   * Members of a kind other than the target's are copied, not moved: the new
   * document and the original one both hold all of them, in order. Members of
   * the target's kind are not duplicated: the target goes to the new document
   * and the others stay behind.
   */
  lemma MoveAccounting(cu: CompilationUnit, sel: Selection)
    requires sel.InNamespace? && ValidSelection(cu, sel)
    ensures var kept, rest := NewFile(cu, sel).members[0].ns.members, RemainingFile(cu, sel).members[0].ns.members;
      var ms, k := Enclosing(cu, sel).members, Target(cu, sel).kind;
      Where(kept, NotOfKind(k)) == Where(ms, NotOfKind(k)) &&
      Where(rest, NotOfKind(k)) == Where(ms, NotOfKind(k)) &&
      |Where(kept, OfKind(k))| + |Where(rest, OfKind(k))| == |Where(ms, OfKind(k))| &&
      |kept| + |rest| == |ms| + |Where(ms, NotOfKind(k))|
  {
    var ms, i, k := Enclosing(cu, sel).members, sel.index, Target(cu, sel).kind;
    var kept := NewFile(cu, sel).members[0].ns.members;
    var rest := RemainingFile(cu, sel).members[0].ns.members;
    assert rest == RemoveAt(ms, i);
    RemoveAtWhere(ms, i, NotOfKind(k));
    RemoveAtWhere(ms, i, OfKind(k));
    PartitionByKind(kept, k);
    PartitionByKind(ms, k);
  }

  /** Every member is either of kind `k` or not. */
  lemma {:induction false} PartitionByKind(ms: seq<Member>, k: Kind)
    ensures |Where(ms, OfKind(k))| + |Where(ms, NotOfKind(k))| == |ms|
  {
    if ms != [] {
      PartitionByKind(ms[1..], k);
    }
  }

  /** A sibling of another kind than the target ends up in both documents. */
  lemma OtherKindSiblingInBothFiles(cu: CompilationUnit, sel: Selection, j: nat)
    requires sel.InNamespace? && ValidSelection(cu, sel)
    requires j < |Enclosing(cu, sel).members|
    requires Enclosing(cu, sel).members[j].kind != Target(cu, sel).kind
    ensures Enclosing(cu, sel).members[j] in NewFile(cu, sel).members[0].ns.members
    ensures Enclosing(cu, sel).members[j] in RemainingFile(cu, sel).members[0].ns.members
  {
    var ms, k, m := Enclosing(cu, sel).members, Target(cu, sel).kind, Enclosing(cu, sel).members[j];
    MoveAccounting(cu, sel);
    WhereMembership(ms, NotOfKind(k), m);
    WhereMembership(NewFile(cu, sel).members[0].ns.members, NotOfKind(k), m);
    WhereMembership(RemainingFile(cu, sel).members[0].ns.members, NotOfKind(k), m);
  }

  /**
   * When the action is offered, the original document keeps at least one
   * class: the namespace had two, and only the target leaves it.
   */
  lemma OfferedMoveLeavesAClass(doc: DocumentId, cu: CompilationUnit, sel: Selection)
    requires ValidSelection(cu, sel)
    requires ComputeRefactorings(doc, cu, sel).Some?
    ensures |Where(RemainingFile(cu, sel).members[0].ns.members, OfKind(ClassDeclaration))| >=
      if Target(cu, sel).kind == ClassDeclaration then 1 else 2
  {
    var ms := Enclosing(cu, sel).members;
    assert RemainingFile(cu, sel).members[0].ns.members == RemoveAt(ms, sel.index);
    RemoveAtWhere(ms, sel.index, OfKind(ClassDeclaration));
  }

  /**
   * Namespace N holding classes A and B, with `using System;`: moving A gives a
   * document "A.cs" holding `using System; namespace N { class A }` and leaves
   * `using System; namespace N { class B }` behind.
   */
  lemma TwoClassesScenario()
    ensures var a, b := Member(ClassDeclaration, "A", []), Member(ClassDeclaration, "B", []);
      var cu := CompilationUnit([UsingDirective("System")], [NamespaceMember(Namespace("N", [a, b]))]);
      var s := MoveToFile(Solution([Document("Types.cs", cu)]), 0, InNamespace(0, 0));
      ComputeRefactorings(0, cu, InNamespace(0, 0)) == Some(CodeAction("Move to A.cs", MoveToFileEdit(0, InNamespace(0, 0)))) &&
      s.documents == [
        Document("Types.cs", CompilationUnit([UsingDirective("System")], [NamespaceMember(Namespace("N", [b]))])),
        Document("A.cs", CompilationUnit([UsingDirective("System")], [NamespaceMember(Namespace("N", [a]))]))]
  {
    var a, b := Member(ClassDeclaration, "A", []), Member(ClassDeclaration, "B", []);
    var cu := CompilationUnit([UsingDirective("System")], [NamespaceMember(Namespace("N", [a, b]))]);
    assert [a, b][1..] == [b];
    assert Where([b], OfKind(ClassDeclaration)) == [b];
    assert Where([a, b], OfKind(ClassDeclaration)) == [a, b];
    assert WithoutSameKindSiblings([b], -1, ClassDeclaration) == [];
    assert WithoutSameKindSiblings([a, b], 0, ClassDeclaration) == [a];
    assert RemoveAt([a, b], 0) == [b];
    assert "Move to " + "A" + ".cs" == "Move to A.cs";
    assert ComputeRefactorings(0, cu, InNamespace(0, 0)) == Some(CodeAction("Move to A.cs", MoveToFileEdit(0, InNamespace(0, 0))));
    assert "A" + ".cs" == "A.cs";
    var s := MoveToFile(Solution([Document("Types.cs", cu)]), 0, InNamespace(0, 0));
    assert s.documents[0] == Document("Types.cs", CompilationUnit([UsingDirective("System")], [NamespaceMember(Namespace("N", [b]))]));
    assert s.documents[1] == Document("A.cs", CompilationUnit([UsingDirective("System")], [NamespaceMember(Namespace("N", [a]))]));
  }

  /**
   * Namespace N holding classes A and B and interface I: moving A puts I in
   * both documents.
   */
  lemma InterfaceCopiedScenario()
    ensures var a, b, i := Member(ClassDeclaration, "A", []), Member(ClassDeclaration, "B", []), Member(InterfaceDeclaration, "I", []);
      var cu := CompilationUnit([], [NamespaceMember(Namespace("N", [a, b, i]))]);
      NewFile(cu, InNamespace(0, 0)).members[0].ns.members == [a, i] &&
      RemainingFile(cu, InNamespace(0, 0)).members[0].ns.members == [b, i]
  {
    var a, b, i := Member(ClassDeclaration, "A", []), Member(ClassDeclaration, "B", []), Member(InterfaceDeclaration, "I", []);
    assert [a, b, i][1..] == [b, i] && [b, i][1..] == [i];
    assert WithoutSameKindSiblings([i], -2, ClassDeclaration) == [i];
    assert WithoutSameKindSiblings([b, i], -1, ClassDeclaration) == [i];
    assert WithoutSameKindSiblings([a, b, i], 0, ClassDeclaration) == [a, i];
    assert RemoveAt([a, b, i], 0) == [b, i];
  }
}
