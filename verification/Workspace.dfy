/**
 * The parts of a workspace that the linked-file finder consults, as values.
 *
 * A solution snapshot is immutable, so every lookup the finder performs on it
 * (tree to document, document to linked documents, document to syntax root,
 * root to full span, span to node, node to declared symbol, document to
 * project) is a total function carried by the `Solution` value. None of these
 * functions is interpreted here: the finder must behave correctly for every
 * choice of them.
 */
module Workspace {

  datatype Option<+T> = None | Some(value: T)

  /** Identities of syntax trees, syntax nodes, documents and projects. */
  type TreeId = nat
  type NodeId = nat
  type DocumentId = nat
  type ProjectId = nat

  /** The declaration category of a symbol (type, method, property, field, ...), by ordinal. */
  type SymbolKind = nat

  /**
   * A half-open range of source text, `[start, start + length)`.
   * Containment is interval containment: this span contains `other` when
   * `other` starts no earlier and ends no later than this span.
   */
  datatype TextSpan = TextSpan(start: nat, length: nat) {

    function End(): nat {
      start + length
    }

    predicate Contains(other: TextSpan) {
      start <= other.start && other.End() <= End()
    }
  }

  /** Where a declaration's syntax lives: the tree that holds it and the span it covers. */
  datatype SyntaxReference = SyntaxReference(tree: TreeId, span: TextSpan)

  /**
   * A declared program element. Two symbols are the same exactly when all
   * their attributes are; `key` tells apart otherwise identical declarations
   * compiled in different project contexts.
   */
  datatype Symbol = Symbol(
    key: nat,
    kind: SymbolKind,
    name: string,
    declaringSyntaxReferences: seq<SyntaxReference>)

  /** A symbol together with the project in whose compilation it was found. */
  datatype SymbolAndProjectId = SymbolAndProjectId(symbol: Symbol, projectId: ProjectId)

  /** A place in a document where a symbol is referenced. */
  datatype ReferenceLocation = ReferenceLocation(document: DocumentId, span: TextSpan)

  /**
   * One immutable solution snapshot, seen through the lookups the finder uses.
   *  - getDocument: the document that owns a syntax tree, if any (trees loaded
   *    by a scripting host have none);
   *  - getLinkedDocumentIds: the other documents sharing a document's text;
   *  - getSyntaxRoot: the root node of a document's syntax tree;
   *  - fullSpan: the full span of a node, trivia included;
   *  - findNode: the node occupying a span below a root, the innermost one when
   *    several share the span;
   *  - getDeclaredSymbol: what a document's semantic model says is declared by
   *    a node, if anything;
   *  - projectOf: the project a document belongs to.
   */
  datatype Solution = Solution(
    getDocument: TreeId -> Option<DocumentId>,
    getLinkedDocumentIds: DocumentId -> seq<DocumentId>,
    getSyntaxRoot: DocumentId -> NodeId,
    fullSpan: NodeId -> TextSpan,
    findNode: (NodeId, TextSpan) -> NodeId,
    getDeclaredSymbol: (DocumentId, NodeId) -> Option<Symbol>,
    projectOf: DocumentId -> ProjectId)
}
