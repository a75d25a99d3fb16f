/**
 * The slice of the C# syntax tree and of the workspace that the three
 * refactoring providers read and rebuild. Every value is immutable: an edit
 * builds new nodes, exactly as the syntax API does.
 */
module Syntax {
  import opened Wrappers

  /**
   * The concrete syntax class of a member declaration. Two members have the
   * same `Kind` exactly when their nodes have the same run-time type
   * (`n.GetType() == typeDecl.GetType()`).
   */
  datatype Kind =
    | ClassDeclaration
    | StructDeclaration
    | InterfaceDeclaration
    | RecordDeclaration
    | EnumDeclaration
    | DelegateDeclaration

  /** Classes, structs, interfaces and records are `TypeDeclarationSyntax`; enums and delegates are not. */
  predicate IsTypeDeclaration(k: Kind) {
    k != EnumDeclaration && k != DelegateDeclaration
  }

  datatype Modifier =
    | PublicKeyword
    | PrivateKeyword
    | ProtectedKeyword
    | InternalKeyword
    | StaticKeyword
    | AbstractKeyword
    | SealedKeyword
    | PartialKeyword

  /** A member declaration: its concrete kind, its identifier and its modifier list in source order. */
  datatype Member = Member(kind: Kind, id: string, mods: seq<Modifier>)

  /** A namespace declaration and its member declarations in source order. */
  datatype Namespace = Namespace(name: string, members: seq<Member>)

  /** A member of a compilation unit: a namespace or a type declared at top level. */
  datatype TopLevel = NamespaceMember(ns: Namespace) | TypeMember(decl: Member)

  datatype UsingDirective = UsingDirective(name: string)

  /** The root of one document: its using directives and its members. */
  datatype CompilationUnit = CompilationUnit(usings: seq<UsingDirective>, members: seq<TopLevel>)

  datatype Document = Document(name: string, root: CompilationUnit)

  /** A document is identified by its position in the solution's document list. */
  type DocumentId = nat

  datatype Solution = Solution(documents: seq<Document>)

  /**
   * The node a text selection resolves to, located by position so that two
   * equal-looking declarations stay distinct (the syntax API compares nodes by
   * reference).
   */
  datatype Selection =
    | InNamespace(nsIndex: nat, index: nat)   // member `index` of the namespace at `nsIndex`
    | InCompilationUnit(index: nat)           // a type declared at top level
    | InType(decl: Member)                    // a member declared inside another type
    | OtherNode                               // anything that is not a member declaration

  /** The positions a selection names exist and hold the shape it claims. */
  predicate ValidSelection(cu: CompilationUnit, sel: Selection) {
    match sel
    case InNamespace(n, i) =>
      n < |cu.members| && cu.members[n].NamespaceMember? && i < |cu.members[n].ns.members|
    case InCompilationUnit(i) => i < |cu.members| && cu.members[i].TypeMember?
    case _ => true
  }

  /** The declaration a selection resolves to, if it is a member declaration at all. */
  function SelectedMember(cu: CompilationUnit, sel: Selection): (r: Option<Member>)
    requires ValidSelection(cu, sel)
  {
    match sel
    case InNamespace(n, i) => Some(cu.members[n].ns.members[i])
    case InCompilationUnit(i) => Some(cu.members[i].decl)
    case InType(decl) => Some(decl)
    case OtherNode => None
  }

  /** `node as TypeDeclarationSyntax`. */
  function AsTypeDeclaration(cu: CompilationUnit, sel: Selection): (r: Option<Member>)
    requires ValidSelection(cu, sel)
    ensures r.Some? ==> IsTypeDeclaration(r.value.kind) && SelectedMember(cu, sel) == r
    ensures r.None? ==> SelectedMember(cu, sel).None? || !IsTypeDeclaration(SelectedMember(cu, sel).value.kind)
  {
    match SelectedMember(cu, sel)
    case Some(m) => if IsTypeDeclaration(m.kind) then Some(m) else None
    case None => None
  }

  /** `typeDecl.Parent as NamespaceDeclarationSyntax`. */
  function ParentNamespace(cu: CompilationUnit, sel: Selection): (r: Option<Namespace>)
    requires ValidSelection(cu, sel)
    ensures r.Some? <==> sel.InNamespace?
    ensures sel.InNamespace? ==> r == Some(Enclosing(cu, sel))
  {
    if sel.InNamespace? then Some(cu.members[sel.nsIndex].ns) else None
  }

  /** The namespace a namespace-member selection sits in (`typeDecl.Parent`). */
  function Enclosing(cu: CompilationUnit, sel: Selection): (ns: Namespace)
    requires sel.InNamespace? && ValidSelection(cu, sel)
  {
    cu.members[sel.nsIndex].ns
  }

  /** The member a namespace-member selection names. */
  function Target(cu: CompilationUnit, sel: Selection): (m: Member)
    requires sel.InNamespace? && ValidSelection(cu, sel)
  {
    Enclosing(cu, sel).members[sel.index]
  }

  /** `Solution.WithDocumentSyntaxRoot`: one document's root replaced, everything else kept. */
  function WithDocumentRoot(s: Solution, id: DocumentId, root: CompilationUnit): (r: Solution)
    requires id < |s.documents|
    ensures |r.documents| == |s.documents|
    ensures r.documents[id] == Document(s.documents[id].name, root)
    ensures forall j :: 0 <= j < |s.documents| && j != id ==> r.documents[j] == s.documents[j]
  {
    Solution(s.documents[id := Document(s.documents[id].name, root)])
  }

  /** `Project.AddDocument`: a new document with a fresh id; names are not checked for collisions. */
  function AddDocument(s: Solution, name: string, root: CompilationUnit): (r: Solution)
    ensures |r.documents| == |s.documents| + 1
    ensures r.documents[|s.documents|] == Document(name, root)
    ensures forall j :: 0 <= j < |s.documents| ==> r.documents[j] == s.documents[j]
  {
    Solution(s.documents + [Document(name, root)])
  }

  /** The accessibility levels a declared symbol can have. */
  datatype Accessibility =
    | NotApplicable
    | Private
    | ProtectedAndInternal
    | Protected
    | Internal
    | ProtectedOrInternal
    | Public

  /** The edit a code action performs when the user invokes it. */
  datatype Edit =
    | MakePublicEdit(doc: DocumentId, target: Selection)
    | SetAccessibilityEdit(doc: DocumentId, target: Selection, level: Accessibility)
    | MoveToFileEdit(doc: DocumentId, target: Selection)

  /** A code action as offered to the user: its title and the edit behind it. */
  datatype CodeAction = CodeAction(title: string, edit: Edit)

  /** The refactoring context a provider registers its actions with. */
  class RefactoringContext {
    var registered: seq<CodeAction>

    constructor ()
      ensures registered == []
    {
      registered := [];
    }

    method RegisterRefactoring(action: CodeAction)
      modifies this
      ensures registered == old(registered) + [action]
    {
      registered := registered + [action];
    }
  }
}
