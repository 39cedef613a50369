# Linked-file reference finder

A model of Roslyn's `LinkedFileReferenceFinder`, one of the finders used by
the find-all-references engine. A source file can be linked into several
projects. Each project then compiles its own copy, and one declaration becomes
one symbol per project. Given an origin symbol, the finder visits each of the
symbol's declaring syntax references. It resolves the document that owns the
reference's tree and walks that document's linked documents. In each linked
document it locates the node at the declaration span and asks for the symbol
declared there. It keeps that symbol when it has the origin's kind and name,
paired with the linked document's project. The result is a set, so a pair
reached twice is kept once. The other three finder operations return nothing.

Files:

- `Workspace.dfy`: spans, syntax references, symbols, symbol/project pairs,
  and the `Solution` snapshot. The snapshot's lookups are function-typed
  fields that the model leaves uninterpreted:
  - tree to owning document (optional);
  - document to linked documents;
  - document to syntax root;
  - node to full span;
  - root and span to the innermost node;
  - document and node to the declared symbol (optional);
  - document to project.
- `LinkedFileReferenceFinder.dfy`: the specification function
  `CascadedSymbols`, built from the filter for one linked document
  (`LinkedCandidate`). It also holds a declarative reference definition
  (`Passes`, `Correlated`), the imperative `DetermineCascadedSymbols` with its
  set accumulator and two nested loops, the three empty operations, and the
  lemmas.
- `Scenarios.dfy`: a worked case. A method `Foo` in A is linked to B and C.
  B has a method `Foo` and C has a field `Foo` at the same span. Only B's
  method is cascaded.

Assumptions of the model:

- `TextSpan.Contains` is interval containment: `start <= other.start` and
  `other.End() <= End()`. This is Roslyn's meaning, but the type is not part
  of this model.
- Looking up a linked document by id (line 35), getting its syntax root
  (line 36) and getting its semantic model (line 46) always succeed. The
  source dereferences all three without a null check.
- Symbols and `SymbolAndProjectId` pairs compare structurally. The hash set's
  equality comparer is not part of this model. A `key` field tells apart
  symbols that are otherwise alike.

## Model

| member | source | states |
|---|---|---|
| `LinkedFileReferenceFinder.DetermineCascadedSymbols` | src/Workspaces/Core/Portable/FindSymbols/FindReferences/Finders/LinkedFileReferenceFinder.cs:14-63 | The nested loops over declaring references and linked documents, with their skips and the contains-then-add accumulation, return exactly `CascadedSymbols` of the origin symbol. The `projects` argument and the origin's own project id play no part in the result. |
| `LinkedFileReferenceFinder.LinkedCandidate` | src/Workspaces/Core/Portable/FindSymbols/FindReferences/Finders/LinkedFileReferenceFinder.cs:35-53 | One linked document yields `p` exactly when `Passes` holds: the root's full span contains the declaration span, the node at the span declares `p.symbol`, that symbol has the origin's kind and name, and `p.projectId` is the linked document's project. Whatever it yields has the origin's kind and name. |
| `LinkedFileReferenceFinder.CandidatesInIff` | src/Workspaces/Core/Portable/FindSymbols/FindReferences/Finders/LinkedFileReferenceFinder.cs:33-58 | A list of linked documents yields `p` exactly when one of the documents passes every check for `p`. |
| `LinkedFileReferenceFinder.CandidatesInBound` | src/Workspaces/Core/Portable/FindSymbols/FindReferences/Finders/LinkedFileReferenceFinder.cs:33-58 | A list of linked documents yields at most as many distinct pairs as it has entries, because each document adds at most one pair. |
| `LinkedFileReferenceFinder.CandidatesInExactCount` | src/Workspaces/Core/Portable/FindSymbols/FindReferences/Finders/LinkedFileReferenceFinder.cs:33-58 | When every linked document passes the checks and no two belong to the same project, a declaration location yields exactly as many distinct pairs as there are linked documents. |
| `LinkedFileReferenceFinder.CorrelatedOverIff` | src/Workspaces/Core/Portable/FindSymbols/FindReferences/Finders/LinkedFileReferenceFinder.cs:20-58 | Soundness and completeness over a list of declaring references. `p` is yielded exactly when some reference has an owning document and one of that document's linked documents passes every check for `p`. |
| `LinkedFileReferenceFinder.CascadedSymbolsIff` | src/Workspaces/Core/Portable/FindSymbols/FindReferences/Finders/LinkedFileReferenceFinder.cs:14-62 | The cascaded set is exactly the filtered set over all of the origin's declaring references times their linked documents. |
| `LinkedFileReferenceFinder.CascadedSymbolsMatchOrigin` | src/Workspaces/Core/Portable/FindSymbols/FindReferences/Finders/LinkedFileReferenceFinder.cs:49-53 | Every cascaded pair has the origin's kind and name. Its project id is the project of a document linked to one of the origin's declaring documents. |
| `LinkedFileReferenceFinder.NoLinkedDocumentsNoCascade` | src/Workspaces/Core/Portable/FindSymbols/FindReferences/Finders/LinkedFileReferenceFinder.cs:17-62 | When no declaring reference's owning document has a linked document, the result is empty. |
| `LinkedFileReferenceFinder.SameLocationsSameResult` | src/Workspaces/Core/Portable/FindSymbols/FindReferences/Finders/LinkedFileReferenceFinder.cs:17-57 | The order and the repetition of declaring references do not affect the result. Two lists holding the same references yield the same set. |
| `LinkedFileReferenceFinder.RepeatedLocationAddsNothing` | src/Workspaces/Core/Portable/FindSymbols/FindReferences/Finders/LinkedFileReferenceFinder.cs:53-57 | Visiting a declaring reference again leaves the result unchanged, because the set already holds every pair it leads to. |
| `LinkedFileReferenceFinder.UnownedLocationSkipped` | src/Workspaces/Core/Portable/FindSymbols/FindReferences/Finders/LinkedFileReferenceFinder.cs:22-31 | A reference whose tree has no owning document contributes nothing. The other references yield the same result as they would without it. |
| `LinkedFileReferenceFinder.RejectedLinkedDocumentSkipped` | src/Workspaces/Core/Portable/FindSymbols/FindReferences/Finders/LinkedFileReferenceFinder.cs:33-58 | A linked document that fails a check contributes nothing. The other linked documents yield the same result as they would without it. |
| `LinkedFileReferenceFinder.UncontainedSpanSkipped` | src/Workspaces/Core/Portable/FindSymbols/FindReferences/Finders/LinkedFileReferenceFinder.cs:38-42 | A linked document whose root's full span does not contain the declaration span is rejected and skipped. The remaining linked documents are still processed. |
| `LinkedFileReferenceFinder.NoDeclaredSymbolSkipped` | src/Workspaces/Core/Portable/FindSymbols/FindReferences/Finders/LinkedFileReferenceFinder.cs:44-49 | A linked document whose node at the span declares no symbol is rejected and skipped. |
| `LinkedFileReferenceFinder.MismatchedSymbolSkipped` | src/Workspaces/Core/Portable/FindSymbols/FindReferences/Finders/LinkedFileReferenceFinder.cs:49-51 | A linked document whose declared symbol differs from the origin in kind or in name is rejected and skipped. |
| `LinkedFileReferenceFinder.DetermineDocumentsToSearch` | src/Workspaces/Core/Portable/FindSymbols/FindReferences/Finders/LinkedFileReferenceFinder.cs:65-68 | Always returns the empty sequence, whatever its arguments. |
| `LinkedFileReferenceFinder.DetermineProjectsToSearch` | src/Workspaces/Core/Portable/FindSymbols/FindReferences/Finders/LinkedFileReferenceFinder.cs:70-73 | Always returns the empty sequence, whatever its arguments. |
| `LinkedFileReferenceFinder.FindReferencesInDocument` | src/Workspaces/Core/Portable/FindSymbols/FindReferences/Finders/LinkedFileReferenceFinder.cs:75-79 | Always returns the empty sequence, whatever its arguments. |
| `Scenarios.ExampleCascade` | src/Workspaces/Core/Portable/FindSymbols/FindReferences/Finders/LinkedFileReferenceFinder.cs:14-63 | In the worked case, a method `Foo` in A is linked to B (method `Foo`) and C (field `Foo`). The result is exactly B's method paired with B's project. |

## Left out

- Async/await and the cancellation token (lines 36, 46, 47). Getting the
  syntax root and the semantic model are plain function calls here.
  Cancellation, which discards the partial result, is not modelled.
- The `Debug.Assert` on the workspace kind (line 29). It is a debug-only
  check with no effect on the result. The model takes the skip branch.
- The Roslyn collaborators themselves: document lookup, linked-document
  index, parsing, `FindNode` and `GetDeclaredSymbol`. They are uninterpreted
  fields of `Solution`, so every property holds for any choice of them.
- A null document for a linked document id (line 35), a null syntax root
  (line 36), or a null semantic model (line 46) for a document that does not
  support one. The source would throw at line 36, 39 or 47. The model assumes
  each lookup succeeds.
- The exact count when several declaring locations lead to the same linked
  document. Whether they then find the same symbol depends on `findNode` and
  `getDeclaredSymbol`, which the model leaves open. `CandidatesInExactCount`
  states the count for one location. `RepeatedLocationAddsNothing` and
  `SameLocationsSameResult` cover repeated locations.
- The `getInnermostNodeForTie: true` flag of `FindNode`. It is folded into the
  meaning of `Solution.findNode`.
- The task wrappers of the three empty operations. They return plain
  sequences.
