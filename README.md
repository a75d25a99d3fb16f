# Refactoring providers: a verified model

This project models the decision and structural-edit logic of three C# code
refactoring providers and one LINQ helper:

- **Move type to file** (`MoveToFileCodeRefactoringProvider`). It is offered on
  a type declaration whose parent is a namespace that holds at least two
  classes. It adds a document named `<Type>.cs` and rewrites the original
  document.
- **Make public** (`MakePublicCodeRefactoringProvider`). It is offered on a type
  declaration without a `public` modifier. It appends `public` to the class and
  rebuilds the namespace and the compilation unit around it.
- **Set accessibility** (`SetAccessibilityCodeRefactoringProvider`). A fixed
  table of four levels (private, internal, protected, public) is filtered
  against the type's declared accessibility. One "Make <keyword>" action is
  registered per remaining entry.
- **`Extensions.Exclude`**: the elements of a sequence that no element of an
  exclusion list matches under a comparer. A null list or comparer leaves the
  source unchanged.

Syntax nodes are immutable values (`Syntax` module). A selected node is located
by position (`Selection`), because the syntax API removes and replaces nodes by
reference, not by value. A solution is a sequence of documents, and a
document's id is its index. The host's registration list is a class whose
field the set-accessibility provider appends to in a loop.

The move-to-file edit is modelled as written. The new document keeps the
target and every sibling of a different concrete kind, and drops only the other
siblings of the target's own kind. So siblings of another kind (an interface
beside the moved class, say) end up in both documents. The original document
also loses every top-level member except the rebuilt namespace.
`MoveToFileProvider.MoveAccounting` and `MoveToFileProvider.InterfaceCopiedScenario`
state this.

Three more behaviours of the code are modelled as written, not as a
generalized design might have them:

- The accessibility menu only ever offers the four table levels. A type
  declared `protected internal` is offered all four, and combined levels are
  never offered.
- Appending `public` is not idempotent: `AddModifiers` appends whether or not
  the keyword is present. Only the eligibility check keeps a second `public`
  out (`MakePublicProvider.ExactlyOnePublicAfterEdit`).
- Move-to-file performs no name-collision check and is not atomic beyond being
  one pure function of the solution.

Files: `wrappers.dfy` (Option), `linq.dfy` (Where/Count/Any and
subsequences), `syntax.dfy` (syntax tree, solution, selection, code actions,
registration context), `move_to_file.dfy`, `make_public.dfy`,
`set_accessibility.dfy`, `extensions.dfy`.

## Model

| member | source | states |
|---|---|---|
| `Syntax.AsTypeDeclaration` | MakePublic/MakePublic/MakePublicCodeRefactoringProvider.cs:23-27 | the cast yields the selected member exactly when it is a class, struct, interface or record declaration |
| `Syntax.ParentNamespace` | MoveTypeToFile/MoveTypeToFile/MoveToFileCodeRefactoringProvider.cs:30 | the parent cast succeeds exactly for a member declared directly in a namespace, and yields that enclosing namespace |
| `Syntax.WithDocumentRoot` | MakePublic/MakePublic/MakePublicCodeRefactoringProvider.cs:50 | one document's root is replaced; its name and every other document are unchanged |
| `Syntax.AddDocument` | MoveTypeToFile/MoveTypeToFile/MoveToFileCodeRefactoringProvider.cs:65 | one new document with the given name and root is added after the existing ones, which are unchanged |
| `Syntax.RefactoringContext.RegisterRefactoring` | MakePublic/MakePublic/SetAccessibilityCodeRefactoringProvider.cs:40 | the action is appended to the registered list |
| `MoveToFileProvider.ComputeRefactorings` | MoveTypeToFile/MoveTypeToFile/MoveToFileCodeRefactoringProvider.cs:23-46 | an action is offered iff the selection is a type declaration whose parent is a namespace with at least two members of exact kind class, whatever the target's kind; its title is "Move to " + identifier + ".cs" |
| `MoveToFileProvider.WithoutSameKindSiblingsSpec` | MoveTypeToFile/MoveTypeToFile/MoveToFileCodeRefactoringProvider.cs:58-59 | removing the same-kind siblings other than the target leaves the target as the only member of its kind, keeps every member of another kind, and keeps the order; by position, the result is the other-kind members before the target, the target, then the other-kind members after it |
| `MoveToFileProvider.WithoutSameKindSiblingsClosedForm` | MoveTypeToFile/MoveTypeToFile/MoveToFileCodeRefactoringProvider.cs:58-59 | the removal by reference, in closed form: the other-kind members before the target position, the target, the other-kind members after it, so value-equal parts of the same kind (two `partial class A`) are told apart |
| `MoveToFileProvider.RemoveAt` | MoveTypeToFile/MoveTypeToFile/MoveToFileCodeRefactoringProvider.cs:68 | removing the target by position leaves all other members in their order |
| `MoveToFileProvider.NewFile` | MoveTypeToFile/MoveTypeToFile/MoveToFileCodeRefactoringProvider.cs:55-64 | the new document has the original usings and one namespace with the same name; in it the target is the only member of its kind, the other-kind members are exactly the original ones, and the target keeps its position among them |
| `MoveToFileProvider.RemainingFile` | MoveTypeToFile/MoveTypeToFile/MoveToFileCodeRefactoringProvider.cs:67-69 | the original document keeps its usings and has exactly one member: the enclosing namespace with only the target removed, the rest in order |
| `MoveToFileProvider.MoveToFile` | MoveTypeToFile/MoveTypeToFile/MoveToFileCodeRefactoringProvider.cs:49-76 | exactly one document is added, named identifier + ".cs"; the original document's root is replaced; no other document changes |
| `MoveToFileProvider.MoveAccounting` | MoveTypeToFile/MoveTypeToFile/MoveToFileCodeRefactoringProvider.cs:58-68 | siblings of another kind are in both documents (counted twice overall); members of the target's kind are split between the documents without loss or duplication |
| `MoveToFileProvider.OtherKindSiblingInBothFiles` | MoveTypeToFile/MoveTypeToFile/MoveToFileCodeRefactoringProvider.cs:58-68 | any sibling of a kind other than the target's occurs in the new and in the original document |
| `MoveToFileProvider.OfferedMoveLeavesAClass` | MoveTypeToFile/MoveTypeToFile/MoveToFileCodeRefactoringProvider.cs:33-69 | when the action is offered, the original namespace keeps at least one class (two when the target is not a class) |
| `MoveToFileProvider.TwoClassesScenario` | MoveTypeToFile/MoveTypeToFile/MoveToFileCodeRefactoringProvider.cs:43-74 | classes A and B in N with `using System;`: "Move to A.cs" is offered and yields A.cs with `namespace N { class A }` and the original with `namespace N { class B }` |
| `MoveToFileProvider.InterfaceCopiedScenario` | MoveTypeToFile/MoveTypeToFile/MoveToFileCodeRefactoringProvider.cs:58-69 | classes A, B and interface I: the new document holds A and I, the original holds B and I |
| `MakePublicProvider.ComputeRefactorings` | MakePublic/MakePublic/MakePublicCodeRefactoringProvider.cs:22-36 | "Make public" is offered iff the selection is a type declaration whose modifiers do not contain `public` |
| `MakePublicProvider.MakePublic` | MakePublic/MakePublic/MakePublicCodeRefactoringProvider.cs:39-52 | for a class in a namespace: its modifiers become the old ones followed by one `public`; only that member of the namespace and only that namespace of the compilation unit are replaced; only this document's root changes |
| `MakePublicProvider.NotOfferedAgain` | MakePublic/MakePublic/MakePublicCodeRefactoringProvider.cs:29-48 | after the edit the eligibility check no longer offers the action on the same declaration |
| `MakePublicProvider.ExactlyOnePublicAfterEdit` | MakePublic/MakePublic/MakePublicCodeRefactoringProvider.cs:29-45 | where the action was offered, the new modifiers hold exactly one `public` and begin with all the old modifiers, `internal`/`private` included |
| `MakePublicProvider.OfferedWhereEditFaults` | MakePublic/MakePublic/MakePublicCodeRefactoringProvider.cs:23-45 | a struct in a namespace and a top-level class are offered the action although the edit's casts require a class inside a namespace |
| `MakePublicProvider.PublicClassNotOffered` | MakePublic/MakePublic/MakePublicCodeRefactoringProvider.cs:29-32 | a class already declared `public` is not offered the action |
| `SetAccessibilityProvider.TableIsWellFormed` | MakePublic/MakePublic/SetAccessibilityCodeRefactoringProvider.cs:54-60 | the table has four entries, each keyed by its level's C# keyword, no level twice, and holds exactly the single-keyword levels |
| `SetAccessibilityProvider.CandidatesSpec` | MakePublic/MakePublic/SetAccessibilityCodeRefactoringProvider.cs:34-35 | the entries kept are the table entries whose level differs from the declared one, in table order: three if the declared level is in the table, four otherwise |
| `SetAccessibilityProvider.CandidatesKeyed` | MakePublic/MakePublic/SetAccessibilityCodeRefactoringProvider.cs:34-36 | every kept entry is keyed by its level's keyword and differs from the declared level |
| `SetAccessibilityProvider.ActionsFrom` | MakePublic/MakePublic/SetAccessibilityCodeRefactoringProvider.cs:35 | one action per entry, in entry order, titled "Make " and the entry's key, editing the given declaration with the entry's level |
| `SetAccessibilityProvider.OfferedActions` | MakePublic/MakePublic/SetAccessibilityCodeRefactoringProvider.cs:24-36 | no action unless the selection is a type declaration; otherwise three or four actions, each titled "Make " + keyword, each targeting the same document and declaration with its own level, never the declared one |
| `SetAccessibilityProvider.OfferedExactlyWhenDifferent` | MakePublic/MakePublic/SetAccessibilityCodeRefactoringProvider.cs:34-36 | a table level is offered iff it differs from the declared accessibility |
| `SetAccessibilityProvider.RegisterEach` | MakePublic/MakePublic/SetAccessibilityCodeRefactoringProvider.cs:38-41 | the `foreach` loop: every action is registered once, in order, after what was already registered |
| `SetAccessibilityProvider.ComputeRefactorings` | MakePublic/MakePublic/SetAccessibilityCodeRefactoringProvider.cs:34-41 | the registered list becomes the old one followed by exactly the offered actions, in the order the filtered sequence yields them |
| `Extensions.Exclude` | MakePublic/MakePublic/Extensions.cs:9-20 | a null list or comparer returns the source; the result is never longer than the source; no kept element is matched by the list |
| `Extensions.ExcludeIsSubsequence` | MakePublic/MakePublic/Extensions.cs:14-19 | the result is a subsequence of the source, order preserved |
| `Extensions.ExcludeMembership` | MakePublic/MakePublic/Extensions.cs:19 | an element is kept iff it is in the source and no `e` in the list has `comparer(e, m)` (excluded element first); a kept element keeps every one of its copies, an excluded one none |
| `Extensions.ExcludeNothing` | MakePublic/MakePublic/Extensions.cs:19 | an empty exclusion list returns the source |
| `Extensions.ExcludeIdempotent` | MakePublic/MakePublic/Extensions.cs:14-19 | excluding twice with the same list and comparer equals excluding once |

## Left out

- Locating the selected node (`FindNode` over a text span) is not modelled: the selection is an input, already resolved to a position in the tree.
- The symbol lookup (`GetSemanticModelAsync`, `GetDeclaredSymbol`) is not modelled: the declared accessibility is an input.
- The set-accessibility edit itself (`DocumentEditor.SetAccessibility`) is a library call whose code is not part of this model; an action records only the document, the declaration and the level it would set.
- Trivia and preprocessor directives (`SyntaxRemoveOptions.KeepDirectives`), token construction and formatting are not modelled; nodes carry no trivia.
- The text round trip in move-to-file (`GetTextAsync`, then `WithDocumentText`) is modelled as replacing the document's root with the rebuilt compilation unit.
- Async tasks, cancellation, the MEF export attributes and `CodeAction.Create` are not modelled; an action is a title plus the edit it performs.
- Nested namespaces, file-scoped namespaces, namespace-level using directives, extern aliases and attribute lists are not modelled; a namespace holds a flat list of member declarations.
- The set-accessibility table is enumerated in insertion order, which is what a dictionary built once without removals yields; other orders are not modelled.
- `MakePublicProvider.MakePublic`: requires a class whose parent is a namespace, where the C# code instead faults with a null dereference; `OfferedWhereEditFaults` shows that the offer reaches declarations outside this precondition.
- `Extensions.Exclude`: lazy (deferred) evaluation, a null source and comparers that throw are not modelled; the result is computed eagerly from a non-null source.
