/**
 The values held by the property graph store: nodes, edges and the store
 itself, the effect of each store mutation as a function on those values,
 and the laws of those mutations (what they change, what they keep, and the
 edge/adjacency invariant).

 A node or edge is stored under its key; the record itself does not repeat
 the key (graph.go only ever creates a node or edge with the key it is
 stored under).
 */
module PropertyStore {

  datatype Kind = NodeKind | EdgeKind

  /** The two ways a lookup fails. */
  datatype Error =
    | NotFound(kind: Kind, key: string)
    | PropertyNotFound(key: string, prop: string)

  datatype Result<+T> = Ok(value: T) | Err(error: Error)

  /** A node: its property bag and its adjacency index, edge key to edge label,
      split into edges leaving the node (`outAdj`) and entering it (`inAdj`). */
  datatype Node<V> = Node(props: map<string, V>, outAdj: map<string, string>, inAdj: map<string, string>)

  datatype Edge<V> = Edge(lbl: string, start: string, end: string, props: map<string, V>)

  /** The whole state of a graph: its node map and its edge map. */
  datatype Store<V> = Store(nodes: map<string, Node<V>>, edges: map<string, Edge<V>>)

  /** A node with no edges and the given properties. */
  function Isolated<V>(props: map<string, V>): Node<V>
  {
    Node(props, map[], map[])
  }

  // ---------------------------------------------------------------------------
  // The edge/adjacency invariant
  // ---------------------------------------------------------------------------

  /** Edge `ekey` is registered at both of its endpoints under its own label. */
  ghost predicate Anchored<V>(s: Store<V>, ekey: string)
    requires ekey in s.edges
  {
    var e := s.edges[ekey];
    && e.start in s.nodes && ekey in s.nodes[e.start].outAdj && s.nodes[e.start].outAdj[ekey] == e.lbl
    && e.end in s.nodes && ekey in s.nodes[e.end].inAdj && s.nodes[e.end].inAdj[ekey] == e.lbl
  }

  /** Every edge is anchored at both endpoints. */
  ghost predicate EdgesAnchored<V>(s: Store<V>)
  {
    forall ekey | ekey in s.edges :: Anchored(s, ekey)
  }

  /** Every adjacency entry names an existing edge that starts (for `outAdj`)
      or ends (for `inAdj`) at the node holding the entry. */
  ghost predicate IndexBacked<V>(s: Store<V>)
  {
    && (forall k, ekey | k in s.nodes && ekey in s.nodes[k].outAdj ::
          ekey in s.edges && s.edges[ekey].start == k)
    && (forall k, ekey | k in s.nodes && ekey in s.nodes[k].inAdj ::
          ekey in s.edges && s.edges[ekey].end == k)
  }

  /** The graph's referential integrity: edges and adjacency agree both ways. */
  ghost predicate Consistent<V>(s: Store<V>)
  {
    EdgesAnchored(s) && IndexBacked(s)
  }

  /** Edge `ekey` appears in no adjacency map of any node. */
  ghost predicate Unindexed<V>(s: Store<V>, ekey: string)
  {
    forall k | k in s.nodes :: ekey !in s.nodes[k].outAdj && ekey !in s.nodes[k].inAdj
  }

  // ---------------------------------------------------------------------------
  // The mutations, as functions of the store
  // ---------------------------------------------------------------------------

  /** MergeNode: insert a new node, or merge `props` into the existing one
      (each supplied property overwrites, the others stay). */
  function AfterMergeNode<V>(s: Store<V>, key: string, props: map<string, V>): Store<V>
  {
    if key !in s.nodes then
      s.(nodes := s.nodes[key := Isolated(props)])
    else
      s.(nodes := s.nodes[key := s.nodes[key].(props := s.nodes[key].props + props)])
  }

  /** MergeEdge on a store: a new edge is refused (store unchanged) unless both
      endpoints exist; otherwise it is inserted and registered at its start
      (`outAdj`) and then at its end (`inAdj`), which may be the same node.
      An existing edge only has `props` merged into its properties. */
  function AfterMergeEdge<V>(s: Store<V>, ekey: string, lbl: string, start: string, end: string,
                             props: map<string, V>): Store<V>
  {
    if ekey in s.edges then
      s.(edges := s.edges[ekey := s.edges[ekey].(props := s.edges[ekey].props + props)])
    else if start !in s.nodes || end !in s.nodes then
      s
    else
      var linked := s.nodes[start := s.nodes[start].(outAdj := s.nodes[start].outAdj[ekey := lbl])];
      Store(linked[end := linked[end].(inAdj := linked[end].inAdj[ekey := lbl])],
            s.edges[ekey := Edge(lbl, start, end, props)])
  }

  /** What MergeEdge returns: the resulting edge, or the missing endpoint
      (the start node is looked up first). */
  function MergeEdgeResult<V>(s: Store<V>, ekey: string, lbl: string, start: string, end: string,
                              props: map<string, V>): Result<Edge<V>>
  {
    if ekey in s.edges then Ok(s.edges[ekey].(props := s.edges[ekey].props + props))
    else if start !in s.nodes then Err(NotFound(NodeKind, start))
    else if end !in s.nodes then Err(NotFound(NodeKind, end))
    else Ok(Edge(lbl, start, end, props))
  }

  /** DeleteNode: drop the node entry only; edges are not touched. */
  function AfterDeleteNode<V>(s: Store<V>, key: string): Store<V>
  {
    s.(nodes := s.nodes - {key})
  }

  /** DeleteEdge: nothing for an absent edge; otherwise unregister it at its
      start and then at its end, skipping an endpoint that no longer exists,
      and drop it from the edge map. */
  function AfterDeleteEdge<V>(s: Store<V>, ekey: string): Store<V>
  {
    if ekey !in s.edges then s
    else
      var e := s.edges[ekey];
      var unlinked :=
        if e.start in s.nodes then s.nodes[e.start := s.nodes[e.start].(outAdj := s.nodes[e.start].outAdj - {ekey})]
        else s.nodes;
      var unlinked' :=
        if e.end in unlinked then unlinked[e.end := unlinked[e.end].(inAdj := unlinked[e.end].inAdj - {ekey})]
        else unlinked;
      Store(unlinked', s.edges - {ekey})
  }

  // ---------------------------------------------------------------------------
  // Laws of MergeNode
  // ---------------------------------------------------------------------------

  /** On an absent key, MergeNode adds exactly one node, isolated and carrying
      the given properties; nothing else changes. */
  lemma MergeNodeInserts<V>(s: Store<V>, key: string, props: map<string, V>)
    requires key !in s.nodes
    ensures var s' := AfterMergeNode(s, key, props);
      && s'.nodes.Keys == s.nodes.Keys + {key}
      && s'.nodes[key] == Isolated(props)
      && (forall k | k in s.nodes :: s'.nodes[k] == s.nodes[k])
      && s'.edges == s.edges
  {
  }

  /** On an existing key, MergeNode with no properties changes nothing. */
  lemma {:induction false} MergeNodeNoProps<V>(s: Store<V>, key: string)
    requires key in s.nodes
    ensures AfterMergeNode(s, key, map[]) == s
  {
    assert s.nodes[key].props + map[] == s.nodes[key].props;
    assert s.nodes[key := s.nodes[key]] == s.nodes;
  }

  /** On an existing key, MergeNode overwrites exactly the supplied
      properties; the other properties, the adjacency index, every other node
      and every edge are unchanged. */
  lemma MergeNodeOverwrites<V>(s: Store<V>, key: string, props: map<string, V>)
    requires key in s.nodes
    ensures var n := AfterMergeNode(s, key, props).nodes[key];
      && n.props.Keys == s.nodes[key].props.Keys + props.Keys
      && (forall p | p in props :: n.props[p] == props[p])
      && (forall p | p in s.nodes[key].props && p !in props :: n.props[p] == s.nodes[key].props[p])
      && n.outAdj == s.nodes[key].outAdj && n.inAdj == s.nodes[key].inAdj
    ensures AfterMergeNode(s, key, props).nodes.Keys == s.nodes.Keys
    ensures forall k | k in s.nodes && k != key :: AfterMergeNode(s, key, props).nodes[k] == s.nodes[k]
    ensures AfterMergeNode(s, key, props).edges == s.edges
  {
  }

  /** Merging one node twice: the properties are the union of the two
      property sets over what was there, and where they overlap the later
      merge wins. */
  lemma MergeNodeTwice<V>(s: Store<V>, key: string, first: map<string, V>, second: map<string, V>)
    ensures var n := AfterMergeNode(AfterMergeNode(s, key, first), key, second).nodes[key];
      var before := if key in s.nodes then s.nodes[key].props.Keys else {};
      && n.props.Keys == before + first.Keys + second.Keys
      && (forall p | p in second :: n.props[p] == second[p])
      && (forall p | p in first && p !in second :: n.props[p] == first[p])
  {
  }

  /** `s'` agrees with `s` on the edges' labels and endpoints and on the
      adjacency maps, and adds only nodes without adjacency. */
  ghost predicate SameIndex<V>(s: Store<V>, s': Store<V>)
  {
    && s'.edges.Keys == s.edges.Keys
    && (forall e | e in s.edges ::
          && s'.edges[e].lbl == s.edges[e].lbl
          && s'.edges[e].start == s.edges[e].start
          && s'.edges[e].end == s.edges[e].end)
    && s.nodes.Keys <= s'.nodes.Keys
    && (forall k | k in s.nodes :: s'.nodes[k].outAdj == s.nodes[k].outAdj && s'.nodes[k].inAdj == s.nodes[k].inAdj)
    && (forall k | k in s'.nodes && k !in s.nodes :: s'.nodes[k].outAdj == map[] && s'.nodes[k].inAdj == map[])
  }

  /** Consistency depends only on what SameIndex compares. */
  lemma ConsistentTransfer<V>(s: Store<V>, s': Store<V>)
    requires Consistent(s) && SameIndex(s, s')
    ensures Consistent(s')
  {
    AnchoredTransfer(s, s');
    BackedTransfer(s, s');
  }

  lemma AnchoredTransfer<V>(s: Store<V>, s': Store<V>)
    requires EdgesAnchored(s) && SameIndex(s, s')
    ensures EdgesAnchored(s')
  {
    forall e | e in s'.edges ensures Anchored(s', e) {
      assert Anchored(s, e);
    }
  }

  lemma BackedTransfer<V>(s: Store<V>, s': Store<V>)
    requires IndexBacked(s) && SameIndex(s, s')
    ensures IndexBacked(s')
  {
    forall k, e | k in s'.nodes && e in s'.nodes[k].outAdj
      ensures e in s'.edges && s'.edges[e].start == k
    {
      assert k in s.nodes && e in s.nodes[k].outAdj;
    }
    forall k, e | k in s'.nodes && e in s'.nodes[k].inAdj
      ensures e in s'.edges && s'.edges[e].end == k
    {
      assert k in s.nodes && e in s.nodes[k].inAdj;
    }
  }

  /** MergeNode keeps the store consistent. */
  lemma MergeNodeConsistent<V>(s: Store<V>, key: string, props: map<string, V>)
    requires Consistent(s)
    ensures Consistent(AfterMergeNode(s, key, props))
  {
    var s' := AfterMergeNode(s, key, props);
    assert s'.edges == s.edges;
    assert s'.nodes.Keys == s.nodes.Keys + {key};
    forall k | k in s'.nodes
      ensures k in s.nodes ==> s'.nodes[k].outAdj == s.nodes[k].outAdj && s'.nodes[k].inAdj == s.nodes[k].inAdj
      ensures k !in s.nodes ==> s'.nodes[k].outAdj == map[] && s'.nodes[k].inAdj == map[]
    {
    }
    ConsistentTransfer(s, s');
  }

  // ---------------------------------------------------------------------------
  // Laws of MergeEdge
  // ---------------------------------------------------------------------------

  /** A new edge with a missing endpoint is refused: MergeEdge reports the
      first missing endpoint (start before end) and changes nothing. */
  lemma MergeEdgeMissingEndpoint<V>(s: Store<V>, ekey: string, lbl: string, start: string, end: string,
                                    props: map<string, V>)
    requires ekey !in s.edges
    ensures MergeEdgeResult(s, ekey, lbl, start, end, props).Err?
            <==> start !in s.nodes || end !in s.nodes
    ensures start !in s.nodes ==> MergeEdgeResult(s, ekey, lbl, start, end, props) == Err(NotFound(NodeKind, start))
    ensures start in s.nodes && end !in s.nodes ==>
              MergeEdgeResult(s, ekey, lbl, start, end, props) == Err(NotFound(NodeKind, end))
    ensures start !in s.nodes || end !in s.nodes ==> AfterMergeEdge(s, ekey, lbl, start, end, props) == s
  {
  }

  /** A new edge between existing nodes is inserted with the given lbl,
      endpoints and properties, is returned, and is anchored at both
      endpoints, whatever state the store was in. No other edge changes, and
      no node other than the two endpoints changes. */
  lemma MergeEdgeLinks<V>(s: Store<V>, ekey: string, lbl: string, start: string, end: string,
                          props: map<string, V>)
    requires ekey !in s.edges && start in s.nodes && end in s.nodes
    ensures var s' := AfterMergeEdge(s, ekey, lbl, start, end, props);
      && s'.edges == s.edges[ekey := Edge(lbl, start, end, props)]
      && MergeEdgeResult(s, ekey, lbl, start, end, props) == Ok(s'.edges[ekey])
      && Anchored(s', ekey)
      && s'.nodes.Keys == s.nodes.Keys
      && (forall k | k in s.nodes && k != start && k != end :: s'.nodes[k] == s.nodes[k])
      && (forall k | k in s.nodes :: s'.nodes[k].props == s.nodes[k].props)
  {
  }

  /** An existing edge keeps its lbl, endpoints and every adjacency map;
      only its properties are merged (no properties: nothing changes). */
  lemma MergeEdgeExisting<V>(s: Store<V>, ekey: string, lbl: string, start: string, end: string,
                             props: map<string, V>)
    requires ekey in s.edges
    ensures var s' := AfterMergeEdge(s, ekey, lbl, start, end, props);
      && s'.nodes == s.nodes
      && s'.edges.Keys == s.edges.Keys
      && s'.edges[ekey].lbl == s.edges[ekey].lbl
      && s'.edges[ekey].start == s.edges[ekey].start
      && s'.edges[ekey].end == s.edges[ekey].end
      && s'.edges[ekey].props.Keys == s.edges[ekey].props.Keys + props.Keys
      && (forall p | p in props :: s'.edges[ekey].props[p] == props[p])
      && (forall p | p in s.edges[ekey].props && p !in props :: s'.edges[ekey].props[p] == s.edges[ekey].props[p])
      && (forall e | e in s.edges && e != ekey :: s'.edges[e] == s.edges[e])
      && MergeEdgeResult(s, ekey, lbl, start, end, props) == Ok(s'.edges[ekey])
    ensures AfterMergeEdge(s, ekey, lbl, start, end, map[]) == s
  {
    assert s.edges[ekey].props + map[] == s.edges[ekey].props;
    assert s.edges[ekey := s.edges[ekey]] == s.edges;
  }

  /** The adjacency maps after a new edge is linked: only the start node's
      `outAdj` and the end node's `inAdj` gain the edge. */
  lemma LinkedIndex<V>(s: Store<V>, ekey: string, lbl: string, start: string, end: string,
                       props: map<string, V>)
    requires ekey !in s.edges && start in s.nodes && end in s.nodes
    ensures var s' := AfterMergeEdge(s, ekey, lbl, start, end, props);
      && s'.nodes.Keys == s.nodes.Keys
      && s'.edges == s.edges[ekey := Edge(lbl, start, end, props)]
      && (forall k | k in s.nodes ::
            s'.nodes[k].outAdj == if k == start then s.nodes[k].outAdj[ekey := lbl] else s.nodes[k].outAdj)
      && (forall k | k in s.nodes ::
            s'.nodes[k].inAdj == if k == end then s.nodes[k].inAdj[ekey := lbl] else s.nodes[k].inAdj)
  {
  }

  /** Linking a new edge at its two endpoints, as MergeEdge does, keeps a
      consistent store consistent. */
  lemma LinkConsistent<V>(s: Store<V>, s': Store<V>, ekey: string, e: Edge<V>)
    requires Consistent(s)
    requires ekey !in s.edges && e.start in s.nodes && e.end in s.nodes
    requires s'.nodes.Keys == s.nodes.Keys && s'.edges == s.edges[ekey := e]
    requires forall k | k in s.nodes ::
      s'.nodes[k].outAdj == if k == e.start then s.nodes[k].outAdj[ekey := e.lbl] else s.nodes[k].outAdj
    requires forall k | k in s.nodes ::
      s'.nodes[k].inAdj == if k == e.end then s.nodes[k].inAdj[ekey := e.lbl] else s.nodes[k].inAdj
    ensures Consistent(s')
  {
    forall x | x in s'.edges ensures Anchored(s', x) {
      if x != ekey {
        assert Anchored(s, x);
      }
    }
    forall k, x | k in s'.nodes && x in s'.nodes[k].outAdj
      ensures x in s'.edges && s'.edges[x].start == k
    {
      if x != ekey {
        assert x in s.nodes[k].outAdj;
      }
    }
    forall k, x | k in s'.nodes && x in s'.nodes[k].inAdj
      ensures x in s'.edges && s'.edges[x].end == k
    {
      if x != ekey {
        assert x in s.nodes[k].inAdj;
      }
    }
  }

  /** MergeEdge keeps the store consistent, whichever way it goes. */
  lemma MergeEdgeConsistent<V>(s: Store<V>, ekey: string, lbl: string, start: string, end: string,
                               props: map<string, V>)
    requires Consistent(s)
    ensures Consistent(AfterMergeEdge(s, ekey, lbl, start, end, props))
  {
    var s' := AfterMergeEdge(s, ekey, lbl, start, end, props);
    if ekey !in s.edges && start in s.nodes && end in s.nodes {
      LinkedIndex(s, ekey, lbl, start, end, props);
      LinkConsistent(s, s', ekey, Edge(lbl, start, end, props));
    } else {
      ConsistentTransfer(s, s');
    }
  }

  // ---------------------------------------------------------------------------
  // Laws of DeleteNode and DeleteEdge
  // ---------------------------------------------------------------------------

  /** DeleteNode removes exactly the node entry: every other node and every
      edge is unchanged. */
  lemma DeleteNodeRemovesOnly<V>(s: Store<V>, key: string)
    ensures var s' := AfterDeleteNode(s, key);
      && s'.nodes.Keys == s.nodes.Keys - {key}
      && (forall k | k in s'.nodes :: s'.nodes[k] == s.nodes[k])
      && s'.edges == s.edges
  {
  }

  /** DeleteNode does not cascade: a consistent store stays consistent exactly
      when no edge starts or ends at the deleted node. */
  lemma DeleteNodeConsistent<V>(s: Store<V>, key: string)
    requires Consistent(s)
    ensures Consistent(AfterDeleteNode(s, key))
            <==> forall e | e in s.edges :: s.edges[e].start != key && s.edges[e].end != key
  {
    if forall e | e in s.edges :: s.edges[e].start != key && s.edges[e].end != key {
      DeleteUnusedNodeConsistent(s, key);
    } else {
      var e :| e in s.edges && (s.edges[e].start == key || s.edges[e].end == key);
      assert !Anchored(AfterDeleteNode(s, key), e);
    }
  }

  /** Deleting a node that no edge touches keeps the store consistent. */
  lemma DeleteUnusedNodeConsistent<V>(s: Store<V>, key: string)
    requires Consistent(s)
    requires forall e | e in s.edges :: s.edges[e].start != key && s.edges[e].end != key
    ensures Consistent(AfterDeleteNode(s, key))
  {
    var s' := AfterDeleteNode(s, key);
    forall e | e in s'.edges ensures Anchored(s', e) {
      assert Anchored(s, e);
    }
  }

  /** DeleteEdge on an absent edge changes nothing. */
  lemma DeleteEdgeAbsent<V>(s: Store<V>, ekey: string)
    requires ekey !in s.edges
    ensures AfterDeleteEdge(s, ekey) == s
  {
  }

  /** DeleteEdge removes the edge from the edge map and its key from the start
      node's `outAdj` and the end node's `inAdj` (where those nodes exist);
      every other edge, property and adjacency map is unchanged. */
  lemma DeleteEdgeRemoves<V>(s: Store<V>, ekey: string)
    requires ekey in s.edges
    ensures var s' := AfterDeleteEdge(s, ekey); var e := s.edges[ekey];
      && s'.edges.Keys == s.edges.Keys - {ekey}
      && (forall e' | e' in s'.edges :: s'.edges[e'] == s.edges[e'])
      && s'.nodes.Keys == s.nodes.Keys
      && (e.start in s'.nodes ==> ekey !in s'.nodes[e.start].outAdj)
      && (e.end in s'.nodes ==> ekey !in s'.nodes[e.end].inAdj)
      && (forall k | k in s.nodes :: s'.nodes[k].props == s.nodes[k].props)
      && (forall k | k in s.nodes ::
            s'.nodes[k].outAdj == if k == e.start then s.nodes[k].outAdj - {ekey} else s.nodes[k].outAdj)
      && (forall k | k in s.nodes ::
            s'.nodes[k].inAdj == if k == e.end then s.nodes[k].inAdj - {ekey} else s.nodes[k].inAdj)
  {
  }

  /** Deleting an edge twice is the same as deleting it once. */
  lemma DeleteEdgeIdempotent<V>(s: Store<V>, ekey: string)
    ensures AfterDeleteEdge(AfterDeleteEdge(s, ekey), ekey) == AfterDeleteEdge(s, ekey)
  {
  }

  /** The adjacency maps after an edge is unlinked: only the start node's
      `outAdj` and the end node's `inAdj` lose the edge. */
  lemma UnlinkedIndex<V>(s: Store<V>, ekey: string)
    requires ekey in s.edges
    ensures var s' := AfterDeleteEdge(s, ekey); var e := s.edges[ekey];
      && s'.nodes.Keys == s.nodes.Keys
      && s'.edges == s.edges - {ekey}
      && (forall k | k in s.nodes ::
            s'.nodes[k].outAdj == if k == e.start then s.nodes[k].outAdj - {ekey} else s.nodes[k].outAdj)
      && (forall k | k in s.nodes ::
            s'.nodes[k].inAdj == if k == e.end then s.nodes[k].inAdj - {ekey} else s.nodes[k].inAdj)
  {
  }

  /** Unlinking an edge at its two endpoints and dropping it, as DeleteEdge
      does, keeps a consistent store consistent and leaves no adjacency entry
      for it. */
  lemma UnlinkConsistent<V>(s: Store<V>, s': Store<V>, ekey: string)
    requires Consistent(s)
    requires ekey in s.edges
    requires s'.nodes.Keys == s.nodes.Keys && s'.edges == s.edges - {ekey}
    requires forall k | k in s.nodes ::
      s'.nodes[k].outAdj == if k == s.edges[ekey].start then s.nodes[k].outAdj - {ekey} else s.nodes[k].outAdj
    requires forall k | k in s.nodes ::
      s'.nodes[k].inAdj == if k == s.edges[ekey].end then s.nodes[k].inAdj - {ekey} else s.nodes[k].inAdj
    ensures Consistent(s') && Unindexed(s', ekey)
  {
    forall x | x in s'.edges ensures Anchored(s', x) {
      assert Anchored(s, x);
    }
    UnlinkBacked(s, s', ekey);
  }

  /** The index half of UnlinkConsistent. */
  lemma UnlinkBacked<V>(s: Store<V>, s': Store<V>, ekey: string)
    requires IndexBacked(s)
    requires ekey in s.edges
    requires s'.nodes.Keys == s.nodes.Keys && s'.edges == s.edges - {ekey}
    requires forall k | k in s.nodes ::
      s'.nodes[k].outAdj == if k == s.edges[ekey].start then s.nodes[k].outAdj - {ekey} else s.nodes[k].outAdj
    requires forall k | k in s.nodes ::
      s'.nodes[k].inAdj == if k == s.edges[ekey].end then s.nodes[k].inAdj - {ekey} else s.nodes[k].inAdj
    ensures IndexBacked(s') && Unindexed(s', ekey)
  {
    UnlinkBackedOut(s, s', ekey);
    UnlinkBackedIn(s, s', ekey);
    UnlinkLeavesNone(s, s', ekey);
  }

  /** After unlinking, no adjacency map names the edge: the only `outAdj`
      and `inAdj` that held it were its endpoints'. */
  lemma UnlinkLeavesNone<V>(s: Store<V>, s': Store<V>, ekey: string)
    requires IndexBacked(s)
    requires ekey in s.edges
    requires s'.nodes.Keys == s.nodes.Keys && s'.edges == s.edges - {ekey}
    requires forall k | k in s.nodes ::
      s'.nodes[k].outAdj == if k == s.edges[ekey].start then s.nodes[k].outAdj - {ekey} else s.nodes[k].outAdj
    requires forall k | k in s.nodes ::
      s'.nodes[k].inAdj == if k == s.edges[ekey].end then s.nodes[k].inAdj - {ekey} else s.nodes[k].inAdj
    ensures Unindexed(s', ekey)
  {
    forall k | k in s'.nodes ensures ekey !in s'.nodes[k].outAdj && ekey !in s'.nodes[k].inAdj {
      if k != s.edges[ekey].start {
        assert ekey !in s.nodes[k].outAdj;
      }
      if k != s.edges[ekey].end {
        assert ekey !in s.nodes[k].inAdj;
      }
    }
  }

  /** After unlinking, every `outAdj` entry still names an edge starting there. */
  lemma UnlinkBackedOut<V>(s: Store<V>, s': Store<V>, ekey: string)
    requires forall k, x | k in s.nodes && x in s.nodes[k].outAdj :: x in s.edges && s.edges[x].start == k
    requires ekey in s.edges
    requires s'.nodes.Keys == s.nodes.Keys && s'.edges == s.edges - {ekey}
    requires forall k | k in s.nodes ::
      s'.nodes[k].outAdj == if k == s.edges[ekey].start then s.nodes[k].outAdj - {ekey} else s.nodes[k].outAdj
    requires forall k | k in s.nodes ::
      s'.nodes[k].inAdj == if k == s.edges[ekey].end then s.nodes[k].inAdj - {ekey} else s.nodes[k].inAdj
    ensures forall k, x | k in s'.nodes && x in s'.nodes[k].outAdj :: x in s'.edges && s'.edges[x].start == k
  {
    forall k, x | k in s'.nodes && x in s'.nodes[k].outAdj
      ensures x in s'.edges && s'.edges[x].start == k
    {
      assert x in s.nodes[k].outAdj;
    }
  }

  /** After unlinking, every `inAdj` entry still names an edge ending there. */
  lemma UnlinkBackedIn<V>(s: Store<V>, s': Store<V>, ekey: string)
    requires forall k, x | k in s.nodes && x in s.nodes[k].inAdj :: x in s.edges && s.edges[x].end == k
    requires ekey in s.edges
    requires s'.nodes.Keys == s.nodes.Keys && s'.edges == s.edges - {ekey}
    requires forall k | k in s.nodes ::
      s'.nodes[k].outAdj == if k == s.edges[ekey].start then s.nodes[k].outAdj - {ekey} else s.nodes[k].outAdj
    requires forall k | k in s.nodes ::
      s'.nodes[k].inAdj == if k == s.edges[ekey].end then s.nodes[k].inAdj - {ekey} else s.nodes[k].inAdj
    ensures forall k, x | k in s'.nodes && x in s'.nodes[k].inAdj :: x in s'.edges && s'.edges[x].end == k
  {
    forall k, x | k in s'.nodes && x in s'.nodes[k].inAdj
      ensures x in s'.edges && s'.edges[x].end == k
    {
      assert x in s.nodes[k].inAdj;
    }
  }

  /** On a consistent store DeleteEdge keeps it consistent and leaves no
      adjacency entry for the deleted edge in any node. */
  lemma DeleteEdgeConsistent<V>(s: Store<V>, ekey: string)
    requires Consistent(s)
    ensures Consistent(AfterDeleteEdge(s, ekey))
    ensures Unindexed(AfterDeleteEdge(s, ekey), ekey)
  {
    if ekey in s.edges {
      UnlinkedIndex(s, ekey);
      UnlinkConsistent(s, AfterDeleteEdge(s, ekey), ekey);
    }
  }
}
