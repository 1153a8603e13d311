/**
 The graph store of graph.go: a `Graph` object owning the node map and the
 edge map, with lookups as functions and merges and deletes as methods that
 update the maps in place. Each mutation is proved to produce the store
 described by the matching function of PropertyStore, whose laws are proved
 there.
 */
module GraphStore {
  import opened PropertyStore

  /** Merges `props` into `base` one property at a time, as the property loop
      of MergeNode and MergeEdge does with SetProperty: every supplied
      property takes its new value, every other property keeps its old one. */
  method MergeProps<V>(base: map<string, V>, props: map<string, V>) returns (merged: map<string, V>)
    ensures merged.Keys == base.Keys + props.Keys
    ensures forall p | p in merged :: merged[p] == if p in props then props[p] else base[p]
  {
    merged := base;
    var todo := props.Keys;
    while todo != {}
      invariant todo <= props.Keys
      invariant merged.Keys == base.Keys + (props.Keys - todo)
      invariant forall p | p in merged :: merged[p] == if p in props && p !in todo then props[p] else base[p]
      decreases todo
    {
      var p :| p in todo;
      merged := merged[p := props[p]];
      todo := todo - {p};
    }
  }

  /** The merged property map is map union with the supplied properties winning. */
  lemma MergedIsUnion<V>(base: map<string, V>, props: map<string, V>, merged: map<string, V>)
    requires merged.Keys == base.Keys + props.Keys
    requires forall p | p in merged :: merged[p] == if p in props then props[p] else base[p]
    ensures merged == base + props
  {
  }

  class Graph<V> {
    var nodes: map<string, Node<V>>
    var edges: map<string, Edge<V>>

    /** NewEmptyGraph. */
    constructor ()
      ensures nodes == map[] && edges == map[]
    {
      nodes := map[];
      edges := map[];
    }

    /** The state of the graph as a value. */
    function Snapshot(): Store<V>
      reads this
    {
      Store(nodes, edges)
    }

    /** getNode / GetNode: the node stored under `key`, or NotFound. */
    function GetNode(key: string): (r: Result<Node<V>>)
      reads this
      ensures r.Ok? <==> key in nodes
      ensures r.Ok? ==> r.value == nodes[key]
      ensures r.Err? ==> r.error == NotFound(NodeKind, key)
    {
      if key in nodes then Ok(nodes[key]) else Err(NotFound(NodeKind, key))
    }

    /** HasNode answers exactly when GetNode succeeds. */
    predicate HasNode(key: string)
      reads this
      ensures HasNode(key) <==> GetNode(key).Ok?
    {
      key in nodes
    }

    /** GetNodeProp: the node is looked up first, then the property. */
    function GetNodeProp(key: string, prop: string): (r: Result<V>)
      reads this
      ensures r.Ok? <==> key in nodes && prop in nodes[key].props
      ensures r.Ok? ==> r.value == nodes[key].props[prop]
      ensures key !in nodes ==> r == Err(NotFound(NodeKind, key))
      ensures key in nodes && prop !in nodes[key].props ==> r == Err(PropertyNotFound(key, prop))
    {
      match GetNode(key)
      case Err(e) => Err(e)
      case Ok(node) => if prop in node.props then Ok(node.props[prop]) else Err(PropertyNotFound(key, prop))
    }

    /** GetNodeProps: the whole property bag of an existing node. */
    function GetNodeProps(key: string): (r: Result<map<string, V>>)
      reads this
      ensures r.Ok? <==> key in nodes
      ensures r.Ok? ==> r.value == nodes[key].props
      ensures r.Err? ==> r.error == NotFound(NodeKind, key)
    {
      match GetNode(key)
      case Err(e) => Err(e)
      case Ok(node) => Ok(node.props)
    }

    /** getEdge / GetEdge: the edge stored under `key`, or NotFound. */
    function GetEdge(key: string): (r: Result<Edge<V>>)
      reads this
      ensures r.Ok? <==> key in edges
      ensures r.Ok? ==> r.value == edges[key]
      ensures r.Err? ==> r.error == NotFound(EdgeKind, key)
    {
      if key in edges then Ok(edges[key]) else Err(NotFound(EdgeKind, key))
    }

    /** HasEdge answers exactly when GetEdge succeeds. */
    predicate HasEdge(key: string)
      reads this
      ensures HasEdge(key) <==> GetEdge(key).Ok?
    {
      key in edges
    }

    /** GetEdgeProp: the edge is looked up first, then the property. */
    function GetEdgeProp(key: string, prop: string): (r: Result<V>)
      reads this
      ensures r.Ok? <==> key in edges && prop in edges[key].props
      ensures r.Ok? ==> r.value == edges[key].props[prop]
      ensures key !in edges ==> r == Err(NotFound(EdgeKind, key))
      ensures key in edges && prop !in edges[key].props ==> r == Err(PropertyNotFound(key, prop))
    {
      match GetEdge(key)
      case Err(e) => Err(e)
      case Ok(edge) => if prop in edge.props then Ok(edge.props[prop]) else Err(PropertyNotFound(key, prop))
    }

    /** MergeNode: creates the node if absent, otherwise merges `props` into
        it; returns the resulting node. Never fails. */
    method MergeNode(key: string, props: map<string, V>) returns (node: Node<V>)
      modifies this
      ensures Snapshot() == AfterMergeNode(old(Snapshot()), key, props)
      ensures key in nodes && node == nodes[key]
    {
      if key !in nodes {
        node := Isolated(props);
        nodes := nodes[key := node];
        return;
      }
      node := nodes[key];
      if |props| == 0 {
        assert node.props + props == node.props;
        assert nodes[key := node] == nodes;
        return;
      }
      var merged := MergeProps(node.props, props);
      MergedIsUnion(node.props, props, merged);
      node := node.(props := merged);
      nodes := nodes[key := node];
    }

    /** MergeEdge: a new edge needs both endpoints (start is checked first)
        and is then registered at both; an existing edge only has its
        properties merged. */
    method MergeEdge(ekey: string, lbl: string, start: string, end: string, props: map<string, V>)
      returns (r: Result<Edge<V>>)
      modifies this
      ensures Snapshot() == AfterMergeEdge(old(Snapshot()), ekey, lbl, start, end, props)
      ensures r == MergeEdgeResult(old(Snapshot()), ekey, lbl, start, end, props)
    {
      if ekey !in edges {
        var edge := Edge(lbl, start, end, props);
        if start !in nodes {
          return Err(NotFound(NodeKind, start));
        }
        if end !in nodes {
          return Err(NotFound(NodeKind, end));
        }
        edges := edges[ekey := edge];
        nodes := nodes[start := nodes[start].(outAdj := nodes[start].outAdj[ekey := lbl])];
        nodes := nodes[end := nodes[end].(inAdj := nodes[end].inAdj[ekey := lbl])];
        return Ok(edge);
      }
      var edge := edges[ekey];
      if |props| == 0 {
        assert edge.props + props == edge.props;
        assert edges[ekey := edge] == edges;
        return Ok(edge);
      }
      var merged := MergeProps(edge.props, props);
      MergedIsUnion(edge.props, props, merged);
      edge := edge.(props := merged);
      edges := edges[ekey := edge];
      r := Ok(edge);
    }

    /** DeleteNode: removes the node entry and nothing else. Never fails. */
    method DeleteNode(key: string)
      modifies this
      ensures Snapshot() == AfterDeleteNode(old(Snapshot()), key)
    {
      nodes := nodes - {key};
    }

    /** DeleteEdge: nothing for an absent edge; otherwise unregisters it at
        whichever endpoints still exist and removes it. Never fails. */
    method DeleteEdge(ekey: string)
      modifies this
      ensures Snapshot() == AfterDeleteEdge(old(Snapshot()), ekey)
    {
      if ekey !in edges {
        return;
      }
      var edge := edges[ekey];
      if edge.start in nodes {
        nodes := nodes[edge.start := nodes[edge.start].(outAdj := nodes[edge.start].outAdj - {ekey})];
      }
      if edge.end in nodes {
        nodes := nodes[edge.end := nodes[edge.end].(inAdj := nodes[edge.end].inAdj - {ekey})];
      }
      edges := edges - {ekey};
    }
  }
}
