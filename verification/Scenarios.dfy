/**
 * A worked case of the cascade: a method `Foo` declared in document A, which
 * is linked to documents B and C. At the same span, B declares a method `Foo`
 * and C declares a field `Foo`. Only B's method is cascaded.
 */
module Scenarios {
  import opened Workspace
  import opened LinkedFileReferenceFinder

  const MethodKind: SymbolKind := 9
  const FieldKind: SymbolKind := 7

  const TreeA: TreeId := 0
  const DocA: DocumentId := 0
  const DocB: DocumentId := 1
  const DocC: DocumentId := 2

  const FooSpan := TextSpan(40, 12)

  const FooInA := Symbol(0, MethodKind, "Foo", [SyntaxReference(TreeA, FooSpan)])
  const FooInB := Symbol(1, MethodKind, "Foo", [])
  const FieldFooInC := Symbol(2, FieldKind, "Foo", [])

  /** Every document's root spans the first hundred characters; the node at a span is numbered after its root. */
  const Example := Solution(
    t => if t == TreeA then Some(DocA) else None,
    d => if d == DocA then [DocB, DocC] else [],
    d => d,
    n => TextSpan(0, 100),
    (root, span) => root + 100,
    (d, n) => if d == DocB then Some(FooInB) else if d == DocC then Some(FieldFooInC) else None,
    d => d + 50)

  /** Only the method in B is cascaded, paired with B's project. */
  lemma ExampleCascade()
    ensures CascadedSymbols(FooInA, Example) == {SymbolAndProjectId(FooInB, 51)}
  {
    var expected := SymbolAndProjectId(FooInB, 51);
    assert LinkedCandidate(FooInA, Example, FooSpan, DocB) == Some(expected);
    assert LinkedCandidate(FooInA, Example, FooSpan, DocC) == None;
    var linked := Example.getLinkedDocumentIds(DocA);
    assert linked == [DocB, DocC] && linked[..1] == [DocB] && [DocB][..0] == [];
    assert CandidatesIn(FooInA, Example, FooSpan, [DocB]) == {expected};
    assert CandidatesIn(FooInA, Example, FooSpan, linked) == {expected};
    var refs := FooInA.declaringSyntaxReferences;
    assert refs[..0] == [];
    assert LocationCandidates(FooInA, Example, refs[0]) == {expected};
    assert CorrelatedOver(FooInA, Example, refs[..0]) == {};
    assert CorrelatedOver(FooInA, Example, refs) == {expected};
  }
}
