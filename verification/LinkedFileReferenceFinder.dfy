/**
 * The reference finder for linked files.
 *
 * A source file linked into several projects is compiled once per project, so
 * one declaration yields one symbol per project. Given a symbol, the finder
 * looks up, for each place the symbol is declared, the same span in every
 * linked copy of the declaring document, and collects the symbols declared
 * there that have the same kind and name, each paired with the project of the
 * copy where it was found. It contributes no documents, no projects and no
 * reference locations of its own.
 */
module LinkedFileReferenceFinder {
  import opened Workspace

  // ---------------------------------------------------------------------------
  // Specification of the cascade
  // ---------------------------------------------------------------------------

  /**
   * What one linked document contributes for one declaration span, stated
   * declaratively: its root contains the span, the node found at the span
   * declares `p.symbol`, that symbol has the origin's kind and name, and
   * `p.projectId` is the linked document's project.
   */
  ghost predicate Passes(origin: Symbol, solution: Solution, span: TextSpan, linked: DocumentId, p: SymbolAndProjectId) {
    var root := solution.getSyntaxRoot(linked);
    && solution.fullSpan(root).Contains(span)
    && solution.getDeclaredSymbol(linked, solution.findNode(root, span)) == Some(p.symbol)
    && p.symbol.kind == origin.kind
    && p.symbol.name == origin.name
    && p.projectId == solution.projectOf(linked)
  }

  /** The pair that the linked document `linked` yields for `span`, or None when one of the checks rejects it. */
  function LinkedCandidate(origin: Symbol, solution: Solution, span: TextSpan, linked: DocumentId): (r: Option<SymbolAndProjectId>)
    ensures r.Some? ==> r.value.symbol.kind == origin.kind && r.value.symbol.name == origin.name
    ensures forall p :: r == Some(p) <==> Passes(origin, solution, span, linked, p)
  {
    var root := solution.getSyntaxRoot(linked);
    if !solution.fullSpan(root).Contains(span) then None
    else
      match solution.getDeclaredSymbol(linked, solution.findNode(root, span))
      case None => None
      case Some(candidate) =>
        if candidate.kind == origin.kind && candidate.name == origin.name
        then Some(SymbolAndProjectId(candidate, solution.projectOf(linked)))
        else None
  }

  /** The pairs that the linked documents `linked`, visited in order, yield for `span`. */
  function CandidatesIn(origin: Symbol, solution: Solution, span: TextSpan, linked: seq<DocumentId>): set<SymbolAndProjectId>
  {
    if linked == [] then {}
    else
      var earlier := CandidatesIn(origin, solution, span, linked[..|linked| - 1]);
      match LinkedCandidate(origin, solution, span, linked[|linked| - 1])
      case None => earlier
      case Some(p) => earlier + {p}
  }

  /** The pairs that one declaring location yields: nothing when no document owns its tree. */
  function LocationCandidates(origin: Symbol, solution: Solution, location: SyntaxReference): set<SymbolAndProjectId>
  {
    match solution.getDocument(location.tree)
    case None => {}
    case Some(document) => CandidatesIn(origin, solution, location.span, solution.getLinkedDocumentIds(document))
  }

  /** The pairs that the declaring locations `locations`, visited in order, yield. */
  function CorrelatedOver(origin: Symbol, solution: Solution, locations: seq<SyntaxReference>): set<SymbolAndProjectId>
  {
    if locations == [] then {}
    else
      CorrelatedOver(origin, solution, locations[..|locations| - 1])
        + LocationCandidates(origin, solution, locations[|locations| - 1])
  }

  /** The cascaded symbols of `origin`: what all its declaring locations yield. */
  function CascadedSymbols(origin: Symbol, solution: Solution): set<SymbolAndProjectId>
  {
    CorrelatedOver(origin, solution, origin.declaringSyntaxReferences)
  }

  /**
   * The reference definition: `p` is correlated with `origin` through
   * `locations` when some location's tree has an owning document, one of that
   * document's linked documents passes every check for the location's span,
   * and `p` is what it yields.
   */
  ghost predicate Correlated(origin: Symbol, solution: Solution, locations: seq<SyntaxReference>, p: SymbolAndProjectId) {
    exists location, linked ::
      && location in locations
      && solution.getDocument(location.tree).Some?
      && linked in solution.getLinkedDocumentIds(solution.getDocument(location.tree).value)
      && Passes(origin, solution, location.span, linked, p)
  }

  // ---------------------------------------------------------------------------
  // The operations of the finder
  // ---------------------------------------------------------------------------

  /**
   * Collects the symbols in linked documents that correspond to the origin
   * symbol's declarations. `projects` is accepted and ignored.
   */
  method DetermineCascadedSymbols(symbolAndProjectId: SymbolAndProjectId, solution: Solution, projects: set<ProjectId>)
    returns (linkedSymbols: set<SymbolAndProjectId>)
    ensures linkedSymbols == CascadedSymbols(symbolAndProjectId.symbol, solution)
  {
    linkedSymbols := {};
    var symbol := symbolAndProjectId.symbol;
    var locations := symbol.declaringSyntaxReferences;
    for i := 0 to |locations|
      invariant linkedSymbols == CorrelatedOver(symbol, solution, locations[..i])
    {
      assert locations[..i + 1][..i] == locations[..i];
      var location := locations[i];
      var originalDocument := solution.getDocument(location.tree);
      if originalDocument.None? {
        // a tree loaded by a scripting host has no document: skip the location
        continue;
      }
      var linkedDocumentIds := solution.getLinkedDocumentIds(originalDocument.value);
      ghost var before := linkedSymbols;
      for j := 0 to |linkedDocumentIds|
        invariant linkedSymbols == before + CandidatesIn(symbol, solution, location.span, linkedDocumentIds[..j])
      {
        assert linkedDocumentIds[..j + 1][..j] == linkedDocumentIds[..j];
        var linkedDocumentId := linkedDocumentIds[j];
        var linkedSyntaxRoot := solution.getSyntaxRoot(linkedDocumentId);
        if !solution.fullSpan(linkedSyntaxRoot).Contains(location.span) {
          // inconsistent linked documents: skip this one
          continue;
        }
        var linkedNode := solution.findNode(linkedSyntaxRoot, location.span);
        var linkedSymbol := solution.getDeclaredSymbol(linkedDocumentId, linkedNode);
        if linkedSymbol.Some? && linkedSymbol.value.kind == symbol.kind && linkedSymbol.value.name == symbol.name {
          var linkedSymbolAndProjectId := SymbolAndProjectId(linkedSymbol.value, solution.projectOf(linkedDocumentId));
          if linkedSymbolAndProjectId !in linkedSymbols {
            linkedSymbols := linkedSymbols + {linkedSymbolAndProjectId};
          }
        }
      }
      assert linkedDocumentIds[..|linkedDocumentIds|] == linkedDocumentIds;
    }
    assert locations[..|locations|] == locations;
  }

  /** This finder adds no documents to search. */
  function DetermineDocumentsToSearch(symbol: Symbol, project: ProjectId, documents: set<DocumentId>): (r: seq<DocumentId>)
    ensures r == []
  {
    []
  }

  /** This finder adds no projects to search. */
  function DetermineProjectsToSearch(symbol: Symbol, solution: Solution, projects: set<ProjectId>): (r: seq<ProjectId>)
    ensures r == []
  {
    []
  }

  /** This finder reports no references of its own. */
  function FindReferencesInDocument(symbolAndProjectId: SymbolAndProjectId, document: DocumentId): (r: seq<ReferenceLocation>)
    ensures r == []
  {
    []
  }

  // ---------------------------------------------------------------------------
  // Properties of the cascade
  // ---------------------------------------------------------------------------

  /** The sequence `s` without its element at index `i`. */
  function RemoveAt<T>(s: seq<T>, i: nat): (r: seq<T>)
    requires i < |s|
    ensures |r| == |s| - 1
    ensures forall x :: x in r ==> x in s
    ensures forall x :: x in s && x != s[i] ==> x in r
  {
    s[..i] + s[i + 1..]
  }

  /** A pair is yielded by a list of linked documents exactly when one of them passes every check for it. */
  lemma {:induction false} CandidatesInIff(origin: Symbol, solution: Solution, span: TextSpan, linked: seq<DocumentId>, p: SymbolAndProjectId)
    ensures p in CandidatesIn(origin, solution, span, linked)
        <==> exists document :: document in linked && Passes(origin, solution, span, document, p)
  {
    if linked != [] {
      var earlier, last := linked[..|linked| - 1], linked[|linked| - 1];
      CandidatesInIff(origin, solution, span, earlier, p);
      assert linked == earlier + [last];
      assert forall document :: document in linked <==> document in earlier || document == last;
    }
  }

  /** Each linked document adds at most one pair, so a list of them yields no more pairs than it has entries. */
  lemma {:induction false} CandidatesInBound(origin: Symbol, solution: Solution, span: TextSpan, linked: seq<DocumentId>)
    ensures |CandidatesIn(origin, solution, span, linked)| <= |linked|
  {
    if linked != [] {
      CandidatesInBound(origin, solution, span, linked[..|linked| - 1]);
    }
  }

  /**
   * When every linked document passes the checks and no two of them belong to
   * the same project, each adds a pair of its own: there are exactly as many
   * pairs as linked documents.
   */
  lemma {:induction false} CandidatesInExactCount(origin: Symbol, solution: Solution, span: TextSpan, linked: seq<DocumentId>)
    requires forall k :: 0 <= k < |linked| ==> LinkedCandidate(origin, solution, span, linked[k]).Some?
    requires forall a, b :: 0 <= a < b < |linked| ==> solution.projectOf(linked[a]) != solution.projectOf(linked[b])
    ensures |CandidatesIn(origin, solution, span, linked)| == |linked|
  {
    if linked != [] {
      var earlier, last := linked[..|linked| - 1], linked[|linked| - 1];
      CandidatesInExactCount(origin, solution, span, earlier);
      var p := LinkedCandidate(origin, solution, span, last).value;
      forall a | 0 <= a < |earlier|
        ensures !Passes(origin, solution, span, earlier[a], p)
      {
        assert earlier[a] == linked[a];
      }
      CandidatesInIff(origin, solution, span, earlier, p);
      assert p !in CandidatesIn(origin, solution, span, earlier);
    }
  }

  /**
   * Soundness and completeness: a pair is yielded by a list of declaring
   * locations exactly when it is correlated with the origin through them.
   */
  lemma {:induction false} CorrelatedOverIff(origin: Symbol, solution: Solution, locations: seq<SyntaxReference>, p: SymbolAndProjectId)
    ensures p in CorrelatedOver(origin, solution, locations) <==> Correlated(origin, solution, locations, p)
  {
    if locations != [] {
      var earlier, last := locations[..|locations| - 1], locations[|locations| - 1];
      CorrelatedOverIff(origin, solution, earlier, p);
      assert locations == earlier + [last];
      assert forall location :: location in locations <==> location in earlier || location == last;
      match solution.getDocument(last.tree)
      case None =>
      case Some(document) =>
        CandidatesInIff(origin, solution, last.span, solution.getLinkedDocumentIds(document), p);
    }
  }

  /** The cascaded symbols are exactly the pairs correlated through the origin's declaring locations. */
  lemma CascadedSymbolsIff(origin: Symbol, solution: Solution, p: SymbolAndProjectId)
    ensures p in CascadedSymbols(origin, solution) <==> Correlated(origin, solution, origin.declaringSyntaxReferences, p)
  {
    CorrelatedOverIff(origin, solution, origin.declaringSyntaxReferences, p);
  }

  /** Every cascaded symbol has the origin's kind and name, and comes with the project of a linked document. */
  lemma CascadedSymbolsMatchOrigin(origin: Symbol, solution: Solution, p: SymbolAndProjectId)
    requires p in CascadedSymbols(origin, solution)
    ensures p.symbol.kind == origin.kind && p.symbol.name == origin.name
    ensures exists location, linked ::
      && location in origin.declaringSyntaxReferences
      && solution.getDocument(location.tree).Some?
      && linked in solution.getLinkedDocumentIds(solution.getDocument(location.tree).value)
      && p.projectId == solution.projectOf(linked)
  {
    CascadedSymbolsIff(origin, solution, p);
  }

  /** When no declaring location leads to a linked document, there are no cascaded symbols. */
  lemma NoLinkedDocumentsNoCascade(origin: Symbol, solution: Solution)
    requires forall location :: location in origin.declaringSyntaxReferences ==>
      match solution.getDocument(location.tree)
      case None => true
      case Some(document) => solution.getLinkedDocumentIds(document) == []
    ensures CascadedSymbols(origin, solution) == {}
  {
    forall p | p in CascadedSymbols(origin, solution)
      ensures false
    {
      CascadedSymbolsIff(origin, solution, p);
    }
  }

  /**
   * Neither the order nor the repetition of declaring locations matters: two
   * lists holding the same locations yield the same pairs.
   */
  lemma SameLocationsSameResult(origin: Symbol, solution: Solution, locations: seq<SyntaxReference>, others: seq<SyntaxReference>)
    requires forall location :: location in locations <==> location in others
    ensures CorrelatedOver(origin, solution, locations) == CorrelatedOver(origin, solution, others)
  {
    forall p ensures p in CorrelatedOver(origin, solution, locations) <==> p in CorrelatedOver(origin, solution, others) {
      CorrelatedOverIff(origin, solution, locations, p);
      CorrelatedOverIff(origin, solution, others, p);
    }
  }

  /** Visiting a declaring location a second time adds nothing: the pairs it yields are already present. */
  lemma RepeatedLocationAddsNothing(origin: Symbol, solution: Solution, locations: seq<SyntaxReference>, i: nat)
    requires i < |locations|
    ensures CorrelatedOver(origin, solution, locations + [locations[i]]) == CorrelatedOver(origin, solution, locations)
  {
    SameLocationsSameResult(origin, solution, locations + [locations[i]], locations);
  }

  /**
   * A declaring location whose tree has no owning document yields nothing,
   * and the other locations yield what they would without it.
   */
  lemma UnownedLocationSkipped(origin: Symbol, solution: Solution, locations: seq<SyntaxReference>, i: nat)
    requires i < |locations|
    requires solution.getDocument(locations[i].tree).None?
    ensures LocationCandidates(origin, solution, locations[i]) == {}
    ensures CorrelatedOver(origin, solution, locations) == CorrelatedOver(origin, solution, RemoveAt(locations, i))
  {
    var rest := RemoveAt(locations, i);
    forall p ensures p in CorrelatedOver(origin, solution, locations) <==> p in CorrelatedOver(origin, solution, rest) {
      CorrelatedOverIff(origin, solution, locations, p);
      CorrelatedOverIff(origin, solution, rest, p);
    }
  }

  /**
   * A linked document that one of the checks rejects yields nothing, and the
   * other linked documents yield what they would without it.
   */
  lemma RejectedLinkedDocumentSkipped(origin: Symbol, solution: Solution, span: TextSpan, linked: seq<DocumentId>, k: nat)
    requires k < |linked|
    requires LinkedCandidate(origin, solution, span, linked[k]).None?
    ensures CandidatesIn(origin, solution, span, linked) == CandidatesIn(origin, solution, span, RemoveAt(linked, k))
  {
    var rest := RemoveAt(linked, k);
    forall p ensures p in CandidatesIn(origin, solution, span, linked) <==> p in CandidatesIn(origin, solution, span, rest) {
      CandidatesInIff(origin, solution, span, linked, p);
      CandidatesInIff(origin, solution, span, rest, p);
    }
  }

  /** A linked document whose root does not contain the declaration span is skipped. */
  lemma UncontainedSpanSkipped(origin: Symbol, solution: Solution, span: TextSpan, linked: seq<DocumentId>, k: nat)
    requires k < |linked|
    requires !solution.fullSpan(solution.getSyntaxRoot(linked[k])).Contains(span)
    ensures LinkedCandidate(origin, solution, span, linked[k]) == None
    ensures CandidatesIn(origin, solution, span, linked) == CandidatesIn(origin, solution, span, RemoveAt(linked, k))
  {
    RejectedLinkedDocumentSkipped(origin, solution, span, linked, k);
  }

  /** A linked document whose node at the span declares no symbol is skipped. */
  lemma NoDeclaredSymbolSkipped(origin: Symbol, solution: Solution, span: TextSpan, linked: seq<DocumentId>, k: nat)
    requires k < |linked|
    requires
      var root := solution.getSyntaxRoot(linked[k]);
      solution.getDeclaredSymbol(linked[k], solution.findNode(root, span)).None?
    ensures LinkedCandidate(origin, solution, span, linked[k]) == None
    ensures CandidatesIn(origin, solution, span, linked) == CandidatesIn(origin, solution, span, RemoveAt(linked, k))
  {
    RejectedLinkedDocumentSkipped(origin, solution, span, linked, k);
  }

  /** A linked document whose declared symbol differs from the origin in kind or in name is skipped. */
  lemma MismatchedSymbolSkipped(origin: Symbol, solution: Solution, span: TextSpan, linked: seq<DocumentId>, k: nat, candidate: Symbol)
    requires k < |linked|
    requires
      var root := solution.getSyntaxRoot(linked[k]);
      solution.getDeclaredSymbol(linked[k], solution.findNode(root, span)) == Some(candidate)
    requires candidate.kind != origin.kind || candidate.name != origin.name
    ensures LinkedCandidate(origin, solution, span, linked[k]) == None
    ensures CandidatesIn(origin, solution, span, linked) == CandidatesIn(origin, solution, span, RemoveAt(linked, k))
  {
    RejectedLinkedDocumentSkipped(origin, solution, span, linked, k);
  }
}
