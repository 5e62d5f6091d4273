/** Entities of the code graph that several components share: nodes, edges,
    unresolved references, file records and the batch one file extracts to.
    Columns that no modelled behaviour reads (end position, language, metadata,
    confidence, provenance) are not carried. */
module Graph {

  datatype Option<+T> = None | Some(value: T)

  datatype NodeKind =
    | Function | Method | Class | Interface | Enum | EnumMember | Struct | Trait | Type
    | Variable | Constant | Module | Namespace | Property | Field | Constructor | Getter
    | Setter | File | Component | Route | Unknown

  datatype EdgeKind =
    | Calls | Imports | Contains | Extends | Implements | Uses | References
    | Instantiates | Exports | Renders | Resolves | UnknownEdge

  datatype Node = Node(
    id: string, name: string, qualifiedName: string, kind: NodeKind, filePath: string,
    startLine: nat, isExported: bool, docstring: Option<string>, signature: Option<string>)

  datatype Edge = Edge(source: string, target: string, kind: EdgeKind)

  /** A reference that extraction could not bind. `id` is the row id the table
      assigns; a reference that is not stored yet carries 0. */
  datatype UnresolvedRef = UnresolvedRef(
    id: int, fromNode: string, name: string, kind: string, filePath: string)

  datatype FileRecord = FileRecord(path: string, contentHash: string, nodeCount: nat)

  datatype ExtractionBatch = ExtractionBatch(
    file: FileRecord, nodes: seq<Node>, edges: seq<Edge>, refs: seq<UnresolvedRef>)

  /** A reference bound to an edge, with the row it came from (0: row unknown). */
  datatype ResolvedEdge = ResolvedEdge(
    edge: Edge, refId: int, fromNode: string, refName: string, refKind: string)

  function NodeIds(nodes: seq<Node>): (ids: set<string>)
  {
    set n | n in nodes :: n.id
  }

  ghost predicate DistinctIds(nodes: seq<Node>)
  {
    forall i, j :: 0 <= i < j < |nodes| ==> nodes[i].id != nodes[j].id
  }

  /** Every edge endpoint and every reference origin is a node of the batch. */
  ghost predicate Closed(nodes: seq<Node>, edges: seq<Edge>, refs: seq<UnresolvedRef>)
  {
    && (forall e :: e in edges ==> e.source in NodeIds(nodes) && e.target in NodeIds(nodes))
    && (forall r :: r in refs ==> r.fromNode in NodeIds(nodes))
  }
}
