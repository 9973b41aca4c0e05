/** The canonical bytes of a topology: printing and parsing undo each other, and no other bytes parse. */
module TopologyCodec {
  import opened Bytes
  import opened CanonicalBytes
  import opened Resources
  import opened Sorting
  import opened Topologies

  // ---------------------------------------------------------------------
  // Printing
  // ---------------------------------------------------------------------

  function CompletenessCode(c: Completeness): (k: nat)
    ensures k <= 2
  {
    match c case Complete => 0 case Partial => 1 case Undetermined => 2
  }

  function EvidenceCode(e: EdgeEvidence): (k: nat)
    ensures k <= 2
  {
    match e case Proven => 0 case Unknown => 1 case Refuted => 2
  }

  function CompletenessOf(k: nat): Completeness
    requires k <= 2
  {
    if k == 0 then Complete else if k == 1 then Partial else Undetermined
  }

  function EvidenceOf(k: nat): EdgeEvidence
    requires k <= 2
  {
    if k == 0 then Proven else if k == 1 then Unknown else Refuted
  }

  function PrintNode(node: NodeSpec): seq<Byte> {
    PutText(node.id) + (PutBool(node.containable) + (PutLE(node.weight, 8)
    + (PutBool(node.protectedObligation) + PutLE(CompletenessCode(node.completeness), 1))))
  }

  function PrintEdge(edge: Edge): seq<Byte> {
    PutLE(edge.from, 4) + (PutLE(edge.to, 4) + (PutLE(EvidenceCode(edge.evidence), 1) + PutLE(edge.generation, 8)))
  }

  function PrintNodes(nodes: seq<NodeSpec>): seq<Byte> {
    if nodes == [] then [] else PrintNode(nodes[0]) + PrintNodes(nodes[1..])
  }

  function PrintEdges(edges: seq<Edge>): seq<Byte> {
    if edges == [] then [] else PrintEdge(edges[0]) + PrintEdges(edges[1..])
  }

  function Print(t: Topology): seq<Byte> {
    PutLE(t.generation, 8) + (PutLE(|t.nodes|, 4) + (PrintNodes(t.nodes)
    + (PutLE(|t.edges|, 4) + PrintEdges(t.edges))))
  }

  // ---------------------------------------------------------------------
  // Parsing
  // ---------------------------------------------------------------------

  function ParseNodeTail(id: ResourceId, s: seq<Byte>): Parsed<NodeSpec> {
    match GetBool(s)
    case Stuck(e) => Stuck(e)
    case Got(containable, s1) =>
      match GetU(s1, 8)
      case Stuck(e) => Stuck(e)
      case Got(weight, s2) =>
        match GetBool(s2)
        case Stuck(e) => Stuck(e)
        case Got(guarded, s3) =>
          match GetU(s3, 1)
          case Stuck(e) => Stuck(e)
          case Got(code, s4) =>
            if code > 2 then Stuck(InvalidArgument)
            else Got(NodeSpec(id, containable, weight, guarded, CompletenessOf(code)), s4)
  }

  function ParseNode(s: seq<Byte>): Parsed<NodeSpec> {
    match GetText(s, MAX_RESOURCE_ID_LENGTH)
    case Stuck(e) => Stuck(e)
    case Got(id, rest) => if !IsValidResourceId(id) then Stuck(InvalidArgument) else ParseNodeTail(id, rest)
  }

  function ParseEdge(s: seq<Byte>, nodeCount: nat): Parsed<Edge> {
    match GetU(s, 4)
    case Stuck(e) => Stuck(e)
    case Got(from, s1) =>
      match GetU(s1, 4)
      case Stuck(e) => Stuck(e)
      case Got(to, s2) =>
        match GetU(s2, 1)
        case Stuck(e) => Stuck(e)
        case Got(code, s3) =>
          match GetU(s3, 8)
          case Stuck(e) => Stuck(e)
          case Got(generation, s4) =>
            if from >= nodeCount || to >= nodeCount || code > 2 then Stuck(InvalidArgument)
            else Got(Edge(from, to, EvidenceOf(code), generation), s4)
  }

  function ParseNodes(s: seq<Byte>, n: nat): Parsed<seq<NodeSpec>>
    decreases n
  {
    if n == 0 then Got([], s)
    else
      match ParseNode(s)
      case Stuck(e) => Stuck(e)
      case Got(node, rest) =>
        match ParseNodes(rest, n - 1)
        case Stuck(e) => Stuck(e)
        case Got(nodes, after) => Got([node] + nodes, after)
  }

  function ParseEdges(s: seq<Byte>, n: nat, nodeCount: nat): Parsed<seq<Edge>>
    decreases n
  {
    if n == 0 then Got([], s)
    else
      match ParseEdge(s, nodeCount)
      case Stuck(e) => Stuck(e)
      case Got(edge, rest) =>
        match ParseEdges(rest, n - 1, nodeCount)
        case Stuck(e) => Stuck(e)
        case Got(edges, after) => Got([edge] + edges, after)
  }

  function ParseEdgePart(generation: nat, nodes: seq<NodeSpec>, s: seq<Byte>): Parsed<Topology> {
    match GetU(s, 4)
    case Stuck(e) => Stuck(e)
    case Got(edgeCount, rest) =>
      if edgeCount > MAX_EDGES then Stuck(LimitExceeded)
      else
        match ParseEdges(rest, edgeCount, |nodes|)
        case Stuck(e) => Stuck(e)
        case Got(edges, after) => Got(Topology(generation, nodes, edges), after)
  }

  /** A topology as listed, before validation. */
  function ParseTopology(s: seq<Byte>): Parsed<Topology> {
    match GetU(s, 8)
    case Stuck(e) => Stuck(e)
    case Got(generation, s1) =>
      match GetU(s1, 4)
      case Stuck(e) => Stuck(e)
      case Got(nodeCount, s2) =>
        if nodeCount > MAX_NODES then Stuck(LimitExceeded)
        else
          match ParseNodes(s2, nodeCount)
          case Stuck(e) => Stuck(e)
          case Got(nodes, s3) => ParseEdgePart(generation, nodes, s3)
  }

  /** A whole document: nothing may follow. */
  function ParseDocument(s: seq<Byte>): Parsed<Topology> {
    match ParseTopology(s)
    case Stuck(e) => Stuck(e)
    case Got(t, rest) => if rest == [] then Got(t, rest) else Stuck(TrailingGarbage)
  }

  // ---------------------------------------------------------------------
  // Parsing takes exactly what printing puts
  // ---------------------------------------------------------------------

  predicate PrintableNode(node: NodeSpec) { IsValidResourceId(node.id) && node.weight < U64_LIMIT }

  predicate PrintableEdge(edge: Edge, n: nat) { edge.from < n && edge.to < n && edge.generation < U64_LIMIT }

  ghost predicate PrintableNodes(nodes: seq<NodeSpec>) {
    forall i :: 0 <= i < |nodes| ==> PrintableNode(nodes[i])
  }

  ghost predicate PrintableEdges(edges: seq<Edge>, n: nat) {
    forall i :: 0 <= i < |edges| ==> PrintableEdge(edges[i], n)
  }

  ghost predicate Printable(t: Topology) {
    && t.generation < U64_LIMIT && |t.nodes| <= MAX_NODES && |t.edges| <= MAX_EDGES
    && PrintableNodes(t.nodes) && PrintableEdges(t.edges, |t.nodes|)
  }

  lemma ValidIdNarrow(id: ResourceId)
    requires IsValidResourceId(id)
    ensures Narrow(id) && |id| <= MAX_RESOURCE_ID_LENGTH
  {
  }

  lemma Regroup(a: seq<Byte>, b: seq<Byte>, c: seq<Byte>)
    ensures (a + b) + c == a + (b + c)
  {
  }

  function PrintNodeTail(node: NodeSpec): seq<Byte> {
    PutBool(node.containable) + (PutLE(node.weight, 8)
    + (PutBool(node.protectedObligation) + PutLE(CompletenessCode(node.completeness), 1)))
  }

  lemma NodeTailExact(id: ResourceId, s: seq<Byte>, node: NodeSpec, rest: seq<Byte>)
    ensures ParseNodeTail(id, s) == Got(node, rest)
            <==> node.id == id && node.weight < U64_LIMIT && s == PrintNodeTail(node) + rest
  {
    hide GetBool, GetU, PutLE, PutBool, Pow256;
    ByteRange();
    var a, b, c, d := PutBool(node.containable), PutLE(node.weight, 8), PutBool(node.protectedObligation),
      PutLE(CompletenessCode(node.completeness), 1);
    var r3 := d + rest;
    var r2 := c + r3;
    var r1 := b + r2;
    assert PrintNodeTail(node) + rest == a + r1;
    BoolExact(s, node.containable, r1);
    UExact(r1, 8, node.weight, r2);
    BoolExact(r2, node.protectedObligation, r3);
    UExact(r3, 1, CompletenessCode(node.completeness), rest);
    if ParseNodeTail(id, s) == Got(node, rest) {
      var s1 := GetBool(s).rest;
      var s2 := GetU(s1, 8).rest;
      var s3 := GetBool(s2).rest;
      BoolExact(s, node.containable, s1);
      UExact(s1, 8, node.weight, s2);
      BoolExact(s2, node.protectedObligation, s3);
      UExact(s3, 1, GetU(s3, 1).value, rest);
    }
  }

  lemma NodeExact(s: seq<Byte>, node: NodeSpec, rest: seq<Byte>)
    ensures ParseNode(s) == Got(node, rest) <==> PrintableNode(node) && s == PrintNode(node) + rest
  {
    hide GetText, PutText, IsValidResourceId, ParseNodeTail, PutBool, PutLE;
    var tail := PrintNodeTail(node) + rest;
    assert PrintNode(node) + rest == PutText(node.id) + tail;
    hide PrintNodeTail, PrintNode;
    TextExact(s, MAX_RESOURCE_ID_LENGTH, node.id, tail);
    NodeTailExact(node.id, tail, node, rest);
    if IsValidResourceId(node.id) { ValidIdNarrow(node.id); }
    if ParseNode(s) == Got(node, rest) {
      var id, after := GetText(s, MAX_RESOURCE_ID_LENGTH).value, GetText(s, MAX_RESOURCE_ID_LENGTH).rest;
      TextExact(s, MAX_RESOURCE_ID_LENGTH, id, after);
      NodeTailExact(id, after, node, rest);
    }
  }

  lemma EdgeExact(s: seq<Byte>, n: nat, edge: Edge, rest: seq<Byte>)
    requires n <= MAX_NODES
    ensures ParseEdge(s, n) == Got(edge, rest) <==> PrintableEdge(edge, n) && s == PrintEdge(edge) + rest
  {
    hide GetU, PutLE, Pow256;
    ByteRange();
    var a, b, c, d := PutLE(edge.from, 4), PutLE(edge.to, 4), PutLE(EvidenceCode(edge.evidence), 1), PutLE(edge.generation, 8);
    var r3 := d + rest;
    var r2 := c + r3;
    var r1 := b + r2;
    assert PrintEdge(edge) + rest == a + r1;
    UExact(s, 4, edge.from, r1);
    UExact(r1, 4, edge.to, r2);
    UExact(r2, 1, EvidenceCode(edge.evidence), r3);
    UExact(r3, 8, edge.generation, rest);
    if ParseEdge(s, n) == Got(edge, rest) {
      var s1 := GetU(s, 4).rest;
      var s2 := GetU(s1, 4).rest;
      var s3 := GetU(s2, 1).rest;
      UExact(s, 4, edge.from, s1);
      UExact(s1, 4, edge.to, s2);
      UExact(s2, 1, GetU(s2, 1).value, s3);
      UExact(s3, 8, edge.generation, rest);
    }
  }

  lemma {:induction false} NodesExact(s: seq<Byte>, n: nat, nodes: seq<NodeSpec>, rest: seq<Byte>)
    ensures ParseNodes(s, n) == Got(nodes, rest)
            <==> |nodes| == n && PrintableNodes(nodes) && s == PrintNodes(nodes) + rest
    decreases n
  {
    hide ParseNode, PrintNode, PrintableNode;
    if n == 0 {
      if nodes == [] { assert PrintNodes(nodes) + rest == rest; }
    } else {
      if ParseNodes(s, n) == Got(nodes, rest) {
        var node, after := ParseNode(s).value, ParseNode(s).rest;
        NodeExact(s, node, after);
        NodesExact(after, n - 1, nodes[1..], rest);
        assert nodes == [node] + nodes[1..];
        Regroup(PrintNode(node), PrintNodes(nodes[1..]), rest);
      }
      if |nodes| == n && PrintableNodes(nodes) && s == PrintNodes(nodes) + rest {
        var after := PrintNodes(nodes[1..]) + rest;
        Regroup(PrintNode(nodes[0]), PrintNodes(nodes[1..]), rest);
        NodeExact(s, nodes[0], after);
        NodesExact(after, n - 1, nodes[1..], rest);
        assert nodes == [nodes[0]] + nodes[1..];
      }
    }
  }

  lemma {:induction false} EdgesExact(s: seq<Byte>, n: nat, nodeCount: nat, edges: seq<Edge>, rest: seq<Byte>)
    requires nodeCount <= MAX_NODES
    ensures ParseEdges(s, n, nodeCount) == Got(edges, rest)
            <==> |edges| == n && PrintableEdges(edges, nodeCount) && s == PrintEdges(edges) + rest
    decreases n
  {
    hide ParseEdge, PrintEdge, PrintableEdge;
    if n == 0 {
      if edges == [] { assert PrintEdges(edges) + rest == rest; }
    } else {
      if ParseEdges(s, n, nodeCount) == Got(edges, rest) {
        var edge, after := ParseEdge(s, nodeCount).value, ParseEdge(s, nodeCount).rest;
        EdgeExact(s, nodeCount, edge, after);
        EdgesExact(after, n - 1, nodeCount, edges[1..], rest);
        assert edges == [edge] + edges[1..];
        Regroup(PrintEdge(edge), PrintEdges(edges[1..]), rest);
      }
      if |edges| == n && PrintableEdges(edges, nodeCount) && s == PrintEdges(edges) + rest {
        var after := PrintEdges(edges[1..]) + rest;
        Regroup(PrintEdge(edges[0]), PrintEdges(edges[1..]), rest);
        EdgeExact(s, nodeCount, edges[0], after);
        EdgesExact(after, n - 1, nodeCount, edges[1..], rest);
        assert edges == [edges[0]] + edges[1..];
      }
    }
  }

  lemma EdgePartExact(generation: nat, nodes: seq<NodeSpec>, s: seq<Byte>, t: Topology, rest: seq<Byte>)
    requires |nodes| <= MAX_NODES
    ensures ParseEdgePart(generation, nodes, s) == Got(t, rest)
            <==> && t.generation == generation && t.nodes == nodes
                 && |t.edges| <= MAX_EDGES && PrintableEdges(t.edges, |nodes|)
                 && s == PutLE(|t.edges|, 4) + (PrintEdges(t.edges) + rest)
  {
    hide GetU, PutLE, ParseEdges, PrintEdges, PrintableEdges, Pow256;
    ByteRange();
    var r1 := PrintEdges(t.edges) + rest;
    UExact(s, 4, |t.edges|, r1);
    EdgesExact(r1, |t.edges|, |nodes|, t.edges, rest);
    if ParseEdgePart(generation, nodes, s) == Got(t, rest) {
      var count, s1 := GetU(s, 4).value, GetU(s, 4).rest;
      UExact(s, 4, count, s1);
      EdgesExact(s1, count, |nodes|, t.edges, rest);
    }
  }

  /** The grammar accepts a topology off the front of some bytes exactly when they start with its print. */
  lemma TopologyExact(s: seq<Byte>, t: Topology, rest: seq<Byte>)
    ensures ParseTopology(s) == Got(t, rest) <==> Printable(t) && s == Print(t) + rest
  {
    hide GetU, PutLE, ParseNodes, PrintNodes, PrintableNodes, ParseEdgePart, PrintEdges, PrintableEdges, Pow256;
    ByteRange();
    var r3 := PutLE(|t.edges|, 4) + (PrintEdges(t.edges) + rest);
    var r2 := PrintNodes(t.nodes) + r3;
    var r1 := PutLE(|t.nodes|, 4) + r2;
    assert Print(t) + rest == PutLE(t.generation, 8) + r1;
    hide Print;
    UExact(s, 8, t.generation, r1);
    UExact(r1, 4, |t.nodes|, r2);
    NodesExact(r2, |t.nodes|, t.nodes, r3);
    if |t.nodes| <= MAX_NODES { EdgePartExact(t.generation, t.nodes, r3, t, rest); }
    if ParseTopology(s) == Got(t, rest) {
      TopologyParsed(s, t, rest);
    }
  }

  lemma TopologyParsed(s: seq<Byte>, t: Topology, rest: seq<Byte>)
    requires ParseTopology(s) == Got(t, rest)
    ensures Printable(t)
    ensures s == PutLE(t.generation, 8) + (PutLE(|t.nodes|, 4) + (PrintNodes(t.nodes)
                 + (PutLE(|t.edges|, 4) + (PrintEdges(t.edges) + rest))))
  {
    hide GetU, PutLE, ParseNodes, PrintNodes, PrintableNodes, ParseEdgePart, PrintEdges, PrintableEdges, Pow256;
    ByteRange();
    var generation, s1 := GetU(s, 8).value, GetU(s, 8).rest;
    var count, s2 := GetU(s1, 4).value, GetU(s1, 4).rest;
    var nodes, s3 := ParseNodes(s2, count).value, ParseNodes(s2, count).rest;
    UExact(s, 8, generation, s1);
    UExact(s1, 4, count, s2);
    NodesExact(s2, count, nodes, s3);
    EdgePartExact(generation, nodes, s3, t, rest);
  }

  // ---------------------------------------------------------------------
  // Documents and definitions
  // ---------------------------------------------------------------------

  function IdAt(nodes: seq<NodeSpec>, i: nat): ResourceId {
    if i < |nodes| then nodes[i].id else ""
  }

  /** The definition a listed topology stands for: endpoints by identity. */
  function SpecOf(t: Topology): TopologySpec {
    TopologySpec(t.generation, t.nodes, seq(|t.edges|, e requires 0 <= e < |t.edges| =>
      EdgeSpec(IdAt(t.nodes, t.edges[e].from), IdAt(t.nodes, t.edges[e].to), t.edges[e].evidence, t.edges[e].generation)))
  }

  lemma SortedSortsToItself<T(!new)>(less: (T, T) -> bool, s: seq<T>)
    requires StrictWeak(less) && StrictlySortedBy(less, s)
    ensures SortBy(less, s) == s && Separated(less, s)
  {
    assert SortedBy(less, s);
    SortedAndSeparated(less, s);
    SortBySorted(less, s);
    SeparatedIffStrict(less, s);
    StrictlySortedUnique(less, s, SortBy(less, s));
  }

  lemma EdgesResolve(t: Topology)
    requires StrictlySortedBy(NodeLess, t.nodes)
    requires forall e :: 0 <= e < |t.edges| ==> EdgeOk(t.edges[e], |t.nodes|)
    ensures forall e :: 0 <= e < |t.edges| ==> EdgeSpecOk(t.nodes, SpecOf(t).edges[e])
    ensures ResolveAll(t.nodes, SpecOf(t).edges) == t.edges
  {
    hide NodeLess, StrictlySortedBy;
    forall e | 0 <= e < |t.edges|
      ensures EdgeSpecOk(t.nodes, SpecOf(t).edges[e]) && Resolve(t.nodes, SpecOf(t).edges[e]).value == t.edges[e]
    {
      assert EdgeOk(t.edges[e], |t.nodes|);
      FindUnique(t.nodes, t.edges[e].from);
      FindUnique(t.nodes, t.edges[e].to);
    }
    var r := ResolveAll(t.nodes, SpecOf(t).edges);
    forall e | 0 <= e < |t.edges| ensures r[e] == t.edges[e] {}
  }

  /** A valid topology is what its own definition builds. */
  lemma SpecOfBuilds(t: Topology)
    requires t.Valid()
    ensures Acceptable(SpecOf(t)) && Canonical(SpecOf(t)) == t
  {
    hide NodeOk, EdgeOk, NodeLess, EdgeLess, StrictlySortedBy, SortBy, Separated, StrictWeak, EdgeSpecOk;
    NodeOrder();
    EdgeOrder();
    SortedSortsToItself(NodeLess, t.nodes);
    SortedSortsToItself(EdgeLess, t.edges);
    EdgesResolve(t);
  }

  lemma ValidPrints(t: Topology)
    requires t.Valid()
    ensures Printable(t)
  {
    forall i | 0 <= i < |t.nodes| ensures PrintableNode(t.nodes[i]) { assert NodeOk(t.nodes[i]); }
    forall i | 0 <= i < |t.edges| ensures PrintableEdge(t.edges[i], |t.nodes|) { assert EdgeOk(t.edges[i], |t.nodes|); }
  }

  // ---------------------------------------------------------------------
  // The round trip
  // ---------------------------------------------------------------------

  /** `decode` accepts `bytes` as the topology `t`. */
  ghost predicate DecodesTo(bytes: seq<Byte>, t: Topology) {
    && ParseDocument(bytes).Got?
    && Acceptable(SpecOf(ParseDocument(bytes).value))
    && t == Canonical(SpecOf(ParseDocument(bytes).value))
  }

  lemma DocumentExact(bytes: seq<Byte>, doc: Topology)
    ensures ParseDocument(bytes) == Got(doc, []) <==> Printable(doc) && bytes == Print(doc)
  {
    hide Printable, Print, ParseTopology;
    TopologyExact(bytes, doc, []);
    assert Print(doc) + [] == Print(doc);
  }

  /** Decoding undoes encoding. */
  lemma DecodeEncode(t: Topology)
    requires t.Valid()
    ensures DecodesTo(Print(t), t)
  {
    hide Printable, Print, ParseDocument, Acceptable, Canonical, SpecOf;
    ValidPrints(t);
    DocumentExact(Print(t), t);
    SpecOfBuilds(t);
  }

  /** No strict prefix of an encoding is a document. */
  lemma StrictPrefixRefused(t: Topology, k: nat)
    requires t.Valid() && k < |Print(t)|
    ensures ParseDocument(Print(t)[..k]).Stuck?
  {
    hide Printable, Print, Topology.Valid, ParseDocument, ParseTopology;
    var whole := Print(t);
    var cut, tail := whole[..k], whole[k..];
    assert tail != [] && whole == cut + tail && whole == whole + [];
    ValidPrints(t);
    TopologyExact(whole, t, []);
    if ParseDocument(cut).Got? {
      var doc := ParseDocument(cut).value;
      WholeDocument(cut);
      DocumentExact(cut, doc);
      TopologyExact(whole, doc, tail);
    }
  }

  /** Anything after an encoding is trailing garbage. */
  lemma ExtensionRefused(t: Topology, tail: seq<Byte>)
    requires t.Valid() && tail != []
    ensures ParseDocument(Print(t) + tail) == Stuck(TrailingGarbage)
  {
    hide Printable, Print, ParseTopology;
    ValidPrints(t);
    TopologyExact(Print(t) + tail, t, tail);
  }

  lemma SpecOfInRange(doc: Topology)
    requires Printable(doc)
    ensures SpecInRange(SpecOf(doc))
  {
    hide PrintableNodes;
    forall e | 0 <= e < |doc.edges| ensures SpecOf(doc).edges[e].generation < U64_LIMIT {
      assert PrintableEdge(doc.edges[e], |doc.nodes|);
    }
  }

  /** Encoding what was accepted gives a document that decodes to the same topology, and from then on to
      the same bytes. */
  lemma ReencodeIsFixed(bytes: seq<Byte>, t: Topology)
    requires DecodesTo(bytes, t)
    ensures t.Valid() && DecodesTo(Print(t), t)
    ensures forall u :: DecodesTo(Print(t), u) ==> Print(u) == Print(t)
  {
    hide Printable, Print, ParseDocument, Acceptable, Canonical, SpecOf, SpecInRange, Topology.Valid;
    var doc := ParseDocument(bytes).value;
    WholeDocument(bytes);
    DocumentExact(bytes, doc);
    SpecOfInRange(doc);
    CanonicalValid(SpecOf(doc));
    DecodeEncode(t);
  }

  lemma WholeDocument(bytes: seq<Byte>)
    requires ParseDocument(bytes).Got?
    ensures ParseDocument(bytes).rest == []
  {
  }

  lemma EncodingUnique(a: Topology, b: Topology)
    requires a.Valid() && b.Valid() && Print(a) == Print(b)
    ensures a == b
  {
    hide Print, ParseDocument, Topology.Valid, Acceptable, Canonical, SpecOf;
    DecodeEncode(a);
    DecodeEncode(b);
  }

  /** An accepted document is already the canonical encoding exactly when it lists nodes and edges in order. */
  lemma CanonicalDocument(bytes: seq<Byte>, t: Topology)
    requires DecodesTo(bytes, t)
    ensures var doc := ParseDocument(bytes).value;
            bytes == Print(t) <==> StrictlySortedBy(NodeLess, doc.nodes) && StrictlySortedBy(EdgeLess, doc.edges)
  {
    hide Printable, Print, ParseDocument, NodeLess, EdgeLess, StrictlySortedBy, SpecOf, Acceptable, Canonical;
    var doc := ParseDocument(bytes).value;
    WholeDocument(bytes);
    DocumentExact(bytes, doc);
    ReencodeIsFixed(bytes, t);
    if bytes == Print(t) {
      ValidPrints(t);
      DocumentExact(bytes, t);
    }
    if StrictlySortedBy(NodeLess, doc.nodes) && StrictlySortedBy(EdgeLess, doc.edges) {
      SortedDocument(doc);
    }
  }

  lemma SortedDocument(doc: Topology)
    requires Acceptable(SpecOf(doc)) && Printable(doc)
    requires StrictlySortedBy(NodeLess, doc.nodes) && StrictlySortedBy(EdgeLess, doc.edges)
    ensures Canonical(SpecOf(doc)) == doc
  {
    NodeOrder();
    SortedSortsToItself(NodeLess, doc.nodes);
    hide NodeOk, NodeLess, EdgeLess, StrictlySortedBy, SortBy, Separated, StrictWeak, PrintableNodes;
    forall e | 0 <= e < |doc.edges| ensures EdgeOk(doc.edges[e], |doc.nodes|) {
      SortedEdgeOk(doc, e);
    }
    hide EdgeOk, EdgeSpecOk, PrintableEdges;
    SpecOfBuilds(doc) by { NodesOk(doc); }
  }

  lemma NodesOk(doc: Topology)
    requires Acceptable(SpecOf(doc))
    ensures 0 < |doc.nodes| <= MAX_NODES && |doc.edges| <= MAX_EDGES && doc.generation != 0
    ensures forall i :: 0 <= i < |doc.nodes| ==> NodeOk(doc.nodes[i])
  {
    hide NodeOk, EdgeSpecOk, Separated, SortBy;
  }

  lemma SortedEdgeOk(doc: Topology, e: nat)
    requires Acceptable(SpecOf(doc)) && Printable(doc) && SortBy(NodeLess, doc.nodes) == doc.nodes && e < |doc.edges|
    requires StrictlySortedBy(NodeLess, doc.nodes)
    ensures EdgeOk(doc.edges[e], |doc.nodes|)
  {
    hide NodeOk, NodeLess, EdgeLess, SortBy, Separated, StrictlySortedBy;
    assert PrintableEdge(doc.edges[e], |doc.nodes|);
    assert EdgeSpecOk(doc.nodes, SpecOf(doc).edges[e]);
    FindUnique(doc.nodes, doc.edges[e].from);
    FindUnique(doc.nodes, doc.edges[e].to);
  }

  /** Definitions that differ only in listing order have the same bytes. */
  lemma InsertionOrderSameBytes(a: TopologySpec, b: TopologySpec)
    requires Acceptable(a) && Reordered(a, b)
    ensures Acceptable(b) && Print(Canonical(a)) == Print(Canonical(b))
  {
    hide Acceptable, Canonical, Print, Reordered;
    InsertionOrderIrrelevant(a, b);
  }

  // ---------------------------------------------------------------------
  // The code
  // ---------------------------------------------------------------------

  method EncodeNode(writer: CanonicalWriter, node: NodeSpec)
    modifies writer
    ensures writer.buffer == old(writer.buffer) + PrintNode(node)
  {
    hide PutLE, PutBool, PutText;
    var code := CompletenessCode(node.completeness);
    writer.Text(node.id);
    writer.Boolean(node.containable);
    writer.Unsigned(node.weight, 8);
    writer.Boolean(node.protectedObligation);
    writer.Unsigned(code, 1);
    NodeBytes(old(writer.buffer), node);
  }

  lemma NodeBytes(before: seq<Byte>, node: NodeSpec)
    ensures before + PutText(node.id) + PutBool(node.containable) + PutLE(node.weight, 8)
            + PutBool(node.protectedObligation) + PutLE(CompletenessCode(node.completeness), 1)
            == before + PrintNode(node)
  {
    hide PutLE, PutBool, PutText, CompletenessCode;
  }

  method EncodeEdge(writer: CanonicalWriter, edge: Edge)
    modifies writer
    ensures writer.buffer == old(writer.buffer) + PrintEdge(edge)
  {
    hide PutLE;
    writer.Unsigned(edge.from, 4);
    writer.Unsigned(edge.to, 4);
    writer.Unsigned(EvidenceCode(edge.evidence), 1);
    writer.Unsigned(edge.generation, 8);
    EdgeBytes(old(writer.buffer), edge);
  }

  lemma EdgeBytes(before: seq<Byte>, edge: Edge)
    ensures before + PutLE(edge.from, 4) + PutLE(edge.to, 4) + PutLE(EvidenceCode(edge.evidence), 1)
            + PutLE(edge.generation, 8) == before + PrintEdge(edge)
  {
    hide PutLE, EvidenceCode;
  }

  lemma {:induction false} PrintNodesAppend(nodes: seq<NodeSpec>, i: nat)
    requires i < |nodes|
    ensures PrintNodes(nodes[..i + 1]) == PrintNodes(nodes[..i]) + PrintNode(nodes[i])
    decreases i
  {
    hide PrintNode;
    if i == 0 {
      assert nodes[..1][1..] == [] && PrintNodes([]) == [];
    } else {
      assert nodes[..i + 1][1..] == nodes[1..][..i] && nodes[..i][1..] == nodes[1..][..i - 1];
      PrintNodesAppend(nodes[1..], i - 1);
    }
  }

  lemma {:induction false} PrintEdgesAppend(edges: seq<Edge>, i: nat)
    requires i < |edges|
    ensures PrintEdges(edges[..i + 1]) == PrintEdges(edges[..i]) + PrintEdge(edges[i])
    decreases i
  {
    hide PrintEdge;
    if i == 0 {
      assert edges[..1][1..] == [] && PrintEdges([]) == [];
    } else {
      assert edges[..i + 1][1..] == edges[1..][..i] && edges[..i][1..] == edges[1..][..i - 1];
      PrintEdgesAppend(edges[1..], i - 1);
    }
  }

  method Encode(t: Topology) returns (bytes: seq<Byte>)
    ensures bytes == Print(t)
  {
    hide PutLE, PrintNode, PrintEdge, PrintNodes, PrintEdges;
    var writer := new CanonicalWriter();
    writer.Unsigned(t.generation, 8);
    writer.Unsigned(|t.nodes|, 4);
    ghost var header := writer.buffer;
    NothingPrinted();
    for i := 0 to |t.nodes|
      invariant writer.buffer == header + PrintNodes(t.nodes[..i])
    {
      EncodeNode(writer, t.nodes[i]);
      PrintNodesAppend(t.nodes, i);
    }
    assert t.nodes[..|t.nodes|] == t.nodes;
    writer.Unsigned(|t.edges|, 4);
    ghost var middle := writer.buffer;
    for i := 0 to |t.edges|
      invariant writer.buffer == middle + PrintEdges(t.edges[..i])
    {
      EncodeEdge(writer, t.edges[i]);
      PrintEdgesAppend(t.edges, i);
    }
    assert t.edges[..|t.edges|] == t.edges;
    bytes := writer.buffer;
  }

  lemma NothingPrinted()
    ensures PrintNodes([]) == [] && PrintEdges([]) == []
  {
  }

  datatype DecodeResult = Decoded(topology: Topology) | Malformed(error: ReadError) | Rejected(reason: BuildError)

  /** Reads one node; the reader fails exactly where the grammar does. */
  method DecodeNode(reader: CanonicalReader) returns (r: Parsed<NodeSpec>)
    requires reader.Valid() && reader.ok
    modifies reader
    ensures reader.Valid() && r == ParseNode(old(reader.Rest()))
    ensures r.Got? ==> reader.ok && r.rest == reader.Rest()
  {
    hide GetText, GetBool, GetU, IsValidResourceId;
    var id := reader.Text(MAX_RESOURCE_ID_LENGTH);
    if !reader.ok { return Stuck(reader.error); }
    if !IsValidResourceId(id) { return Stuck(InvalidArgument); }
    var containable := reader.Boolean();
    var weight := reader.Unsigned(8);
    var guarded := reader.Boolean();
    var completeness := reader.Unsigned(1);
    if !reader.ok || completeness > 2 {
      reader.Poison(InvalidArgument);
      return Stuck(reader.error);
    }
    r := Got(NodeSpec(id, containable, weight, guarded, CompletenessOf(completeness)), reader.Rest());
  }

  method DecodeEdge(reader: CanonicalReader, nodeCount: nat) returns (r: Parsed<Edge>)
    requires reader.Valid() && reader.ok
    modifies reader
    ensures reader.Valid() && r == ParseEdge(old(reader.Rest()), nodeCount)
    ensures r.Got? ==> reader.ok && r.rest == reader.Rest()
  {
    hide GetU;
    var from := reader.Unsigned(4);
    var to := reader.Unsigned(4);
    var evidence := reader.Unsigned(1);
    var generation := reader.Unsigned(8);
    if !reader.ok { return Stuck(reader.error); }
    if from >= nodeCount || to >= nodeCount { return Stuck(InvalidArgument); }
    if evidence > 2 { return Stuck(InvalidArgument); }
    r := Got(Edge(from, to, EvidenceOf(evidence), generation), reader.Rest());
  }

  function Prepend<T>(front: seq<T>, p: Parsed<seq<T>>): Parsed<seq<T>> {
    match p case Stuck(e) => Stuck(e) case Got(back, rest) => Got(front + back, rest)
  }

  lemma PrependNode(front: seq<NodeSpec>, s: seq<Byte>, n: nat)
    requires n > 0
    ensures Prepend(front, ParseNodes(s, n)) ==
      match ParseNode(s)
      case Stuck(e) => Stuck(e)
      case Got(node, rest) => Prepend(front + [node], ParseNodes(rest, n - 1))
  {
    hide ParseNode;
    if ParseNode(s).Got? {
      var node, p := ParseNode(s).value, ParseNodes(ParseNode(s).rest, n - 1);
      if p.Got? { assert front + ([node] + p.value) == front + [node] + p.value; }
    }
  }

  lemma PrependEdge(front: seq<Edge>, s: seq<Byte>, n: nat, nodeCount: nat)
    requires n > 0
    ensures Prepend(front, ParseEdges(s, n, nodeCount)) ==
      match ParseEdge(s, nodeCount)
      case Stuck(e) => Stuck(e)
      case Got(edge, rest) => Prepend(front + [edge], ParseEdges(rest, n - 1, nodeCount))
  {
    hide ParseEdge;
    if ParseEdge(s, nodeCount).Got? {
      var edge, p := ParseEdge(s, nodeCount).value, ParseEdges(ParseEdge(s, nodeCount).rest, n - 1, nodeCount);
      if p.Got? { assert front + ([edge] + p.value) == front + [edge] + p.value; }
    }
  }

  lemma PrependNothing<T>(p: Parsed<seq<T>>)
    ensures Prepend([], p) == p
  {
    if p.Got? { assert [] + p.value == p.value; }
  }

  method DecodeNodes(reader: CanonicalReader, count: nat) returns (r: Parsed<seq<NodeSpec>>)
    requires reader.Valid() && reader.ok
    modifies reader
    ensures reader.Valid() && r == ParseNodes(old(reader.Rest()), count)
    ensures r.Got? ==> reader.ok && r.rest == reader.Rest()
  {
    hide ParseNodes, ParseNode;
    var nodes: seq<NodeSpec> := [];
    ghost var goal := ParseNodes(reader.Rest(), count);
    PrependNothing(goal);
    for i := 0 to count
      invariant reader.Valid() && reader.ok
      invariant goal == Prepend(nodes, ParseNodes(reader.Rest(), count - i))
    {
      PrependNode(nodes, reader.Rest(), count - i);
      var node := DecodeNode(reader);
      if node.Stuck? { return Stuck(node.error); }
      nodes := nodes + [node.value];
    }
    NoMoreNodes(reader.Rest());
    assert nodes + [] == nodes;
    r := Got(nodes, reader.Rest());
  }

  lemma NoMoreNodes(s: seq<Byte>)
    ensures ParseNodes(s, 0) == Got([], s)
  {
  }

  lemma NoMoreEdges(s: seq<Byte>, nodeCount: nat)
    ensures ParseEdges(s, 0, nodeCount) == Got([], s)
  {
  }

  method DecodeEdges(reader: CanonicalReader, count: nat, nodeCount: nat) returns (r: Parsed<seq<Edge>>)
    requires reader.Valid() && reader.ok
    modifies reader
    ensures reader.Valid() && r == ParseEdges(old(reader.Rest()), count, nodeCount)
    ensures r.Got? ==> reader.ok && r.rest == reader.Rest()
  {
    hide ParseEdges, ParseEdge;
    var edges: seq<Edge> := [];
    ghost var goal := ParseEdges(reader.Rest(), count, nodeCount);
    PrependNothing(goal);
    for i := 0 to count
      invariant reader.Valid() && reader.ok
      invariant goal == Prepend(edges, ParseEdges(reader.Rest(), count - i, nodeCount))
    {
      PrependEdge(edges, reader.Rest(), count - i, nodeCount);
      var edge := DecodeEdge(reader, nodeCount);
      if edge.Stuck? { return Stuck(edge.error); }
      edges := edges + [edge.value];
    }
    NoMoreEdges(reader.Rest(), nodeCount);
    assert edges + [] == edges;
    r := Got(edges, reader.Rest());
  }

  method DecodeEdgePart(reader: CanonicalReader, generation: nat, nodes: seq<NodeSpec>) returns (r: Parsed<Topology>)
    requires reader.Valid() && reader.ok
    modifies reader
    ensures reader.Valid() && r == ParseEdgePart(generation, nodes, old(reader.Rest()))
    ensures r.Got? ==> reader.ok && r.rest == reader.Rest()
  {
    hide ParseEdges, GetU;
    var edgeCount := reader.Unsigned(4);
    if !reader.ok { return Stuck(reader.error); }
    if edgeCount > MAX_EDGES { return Stuck(LimitExceeded); }
    var edges := DecodeEdges(reader, edgeCount, |nodes|);
    if edges.Stuck? { return Stuck(edges.error); }
    r := Got(Topology(generation, nodes, edges.value), reader.Rest());
  }

  /** Reads a whole document. */
  method DecodeDocument(bytes: seq<Byte>) returns (r: Parsed<Topology>)
    ensures r == ParseDocument(bytes)
  {
    hide ParseNodes, ParseEdgePart, GetU;
    var reader := new CanonicalReader(bytes);
    var generation := reader.Unsigned(8);
    var nodeCount := reader.Unsigned(4);
    if !reader.ok { return Stuck(reader.error); }
    if nodeCount > MAX_NODES { return Stuck(LimitExceeded); }
    var nodes := DecodeNodes(reader, nodeCount);
    if nodes.Stuck? { return Stuck(nodes.error); }
    r := DecodeEdgePart(reader, generation, nodes.value);
    if r.Stuck? { return; }
    reader.RequireEnd();
    if !reader.ok { return Stuck(reader.error); }
  }

  /** Parses a document and builds the topology it defines. */
  method Decode(bytes: seq<Byte>) returns (r: DecodeResult)
    ensures r.Malformed? <==> ParseDocument(bytes).Stuck?
    ensures r.Malformed? ==> ParseDocument(bytes) == Stuck(r.error)
    ensures r.Decoded? <==> exists t :: DecodesTo(bytes, t)
    ensures r.Decoded? ==> DecodesTo(bytes, r.topology) && r.topology.Valid()
  {
    hide ParseDocument, Acceptable, Canonical, SpecOf, SpecInRange, Printable, Print, Topology.Valid;
    var document := DecodeDocument(bytes);
    if document.Stuck? { return Malformed(document.error); }
    WholeDocument(bytes);
    DocumentExact(bytes, document.value);
    SpecOfInRange(document.value);
    var built := Build(SpecOf(document.value));
    r := if built.Built? then Decoded(built.topology) else Rejected(built.error);
    if built.Built? { assert DecodesTo(bytes, r.topology); }
  }
}
