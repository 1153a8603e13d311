/**
 The query engine of query.go, as values: the state of a query tree
 (`QTree`), the effect of each chained operation on that state, and the laws
 of those operations. The query objects of QueryEngine are proved to follow
 these functions and relations.

 A query level holds a working set of node keys (`result`), a cache of
 projected values, the name under which its children were created (`key`),
 and its children (`queries`), keyed by node key. A level with at least one
 child is deep; the leaf operations (traversal, filtering, projection) act
 on the working set of a level that is not deep and are forwarded to every
 child of a level that is.
 */
module Traversal {
  import opened PropertyStore

  datatype Direction = Outgoing | Incoming

  /** What the query writes into a cache entry. */
  datatype Cached<V> =
    | PerNode(perNode: map<string, map<string, V>>)            // Get: per node, the requested properties
    | Single(props: map<string, V>)                             // GetOne: the requested properties of the one node
    | Branches(caches: map<string, map<string, Cached<V>>>)     // Flatten: per child node key, that child's cache

  /** The state of one query level and, through `queries`, of its subtree. */
  datatype QTree<V> = QTree(result: set<string>, cache: map<string, Cached<V>>, key: string,
                            queries: map<string, QTree<V>>)
  {
    /** IsDeep: the level has children. */
    predicate Deep()
    {
      queries != map[]
    }
  }

  // ---------------------------------------------------------------------------
  // One traversal step
  // ---------------------------------------------------------------------------

  /** The adjacency map followed in a direction: `outAdj` for Out, `inAdj` for In. */
  function Adjacency<V>(n: Node<V>, dir: Direction): map<string, string>
  {
    if dir == Outgoing then n.outAdj else n.inAdj
  }

  /** The endpoint an edge is followed from. */
  function Near<V>(e: Edge<V>, dir: Direction): string
  {
    if dir == Outgoing then e.start else e.end
  }

  /** The endpoint an edge leads to. */
  function Far<V>(e: Edge<V>, dir: Direction): string
  {
    if dir == Outgoing then e.end else e.start
  }

  /** The neighbours reached from node `k` over adjacency entries labelled
      `lbl` whose edge and far node both resolve; anything that does not
      resolve is skipped. */
  ghost function Hop<V>(s: Store<V>, k: string, dir: Direction, lbl: string): set<string>
  {
    if k !in s.nodes then {}
    else
      var adj := Adjacency(s.nodes[k], dir);
      set ekey | ekey in adj && adj[ekey] == lbl && ekey in s.edges && Far(s.edges[ekey], dir) in s.nodes
        :: Far(s.edges[ekey], dir)
  }

  /** The new working set of Out (Outgoing) or In (Incoming) on a flat level:
      every neighbour of every node of the old one. */
  ghost function Step<V>(s: Store<V>, from: set<string>, dir: Direction, lbl: string): set<string>
  {
    set k, n | k in from && n in Hop(s, k, dir, lbl) :: n
  }

  /** The nodes of `from` that resolve and whose properties satisfy `pred`. */
  ghost function Kept<V>(s: Store<V>, from: set<string>, pred: map<string, V> -> bool): set<string>
  {
    set k | k in from && k in s.nodes && pred(s.nodes[k].props)
  }

  /** The requested properties that node `k` has (none if it does not resolve). */
  ghost function Projection<V>(s: Store<V>, k: string, keys: seq<string>): map<string, V>
  {
    if k !in s.nodes then map[]
    else map p | p in keys && p in s.nodes[k].props :: s.nodes[k].props[p]
  }

  /** The start keys that exist, as NewQuery collects them. */
  ghost function Found<V>(s: Store<V>, starts: seq<string>): set<string>
  {
    set k | k in starts && k in s.nodes
  }

  /** A fresh flat query rooted at `starts`. */
  ghost function Root<V>(s: Store<V>, starts: seq<string>): QTree<V>
  {
    QTree(Found(s, starts), map[], "", map[])
  }

  // ---------------------------------------------------------------------------
  // The chained operations on a query tree
  // ---------------------------------------------------------------------------

  /** Out / In. */
  ghost function TraverseTree<V>(t: QTree<V>, s: Store<V>, dir: Direction, lbl: string): QTree<V>
    decreases t
  {
    if t.Deep() then t.(queries := map k | k in t.queries :: TraverseTree(t.queries[k], s, dir, lbl))
    else t.(result := Step(s, t.result, dir, lbl))
  }

  /** FilterNodes. */
  ghost function FilterTree<V>(t: QTree<V>, s: Store<V>, pred: map<string, V> -> bool): QTree<V>
    decreases t
  {
    if t.Deep() then t.(queries := map k | k in t.queries :: FilterTree(t.queries[k], s, pred))
    else t.(result := Kept(s, t.result, pred))
  }

  /** Get. */
  ghost function GetTree<V>(t: QTree<V>, s: Store<V>, name: string, keys: seq<string>): QTree<V>
    decreases t
  {
    if t.Deep() then t.(queries := map k | k in t.queries :: GetTree(t.queries[k], s, name, keys))
    else t.(cache := t.cache[name := PerNode(map k | k in t.result :: Projection(s, k, keys))])
  }

  /** GetOne: a flat level whose working set is not a single node is left alone. */
  ghost function GetOneTree<V>(t: QTree<V>, s: Store<V>, name: string, keys: seq<string>): QTree<V>
    decreases t
  {
    if t.Deep() then t.(queries := map k | k in t.queries :: GetOneTree(t.queries[k], s, name, keys))
    else if |t.result| != 1 then t
    else
      var k :| k in t.result;
      t.(cache := t.cache[name := Single(Projection(s, k, keys))])
  }

  /** Deepen: a flat level gets one fresh flat child per working-set node and
      records `name`, even when there are no nodes (and so no children). */
  ghost function DeepenTree<V>(t: QTree<V>, s: Store<V>, name: string): QTree<V>
    decreases t
  {
    if t.Deep() then t.(queries := map k | k in t.queries :: DeepenTree(t.queries[k], s, name))
    else t.(key := name, queries := map k | k in t.result :: Root(s, [k]))
  }

  /** Some child is deep: IsDoubleDeep may answer true. */
  ghost predicate SomeChildDeep<V>(t: QTree<V>)
  {
    exists k :: k in t.queries && t.queries[k].Deep()
  }

  /** Some child is flat: IsDoubleDeep may answer false. */
  ghost predicate SomeChildFlat<V>(t: QTree<V>)
  {
    exists k :: k in t.queries && !t.queries[k].Deep()
  }

  /** The level itself is unchanged and has the same child keys. */
  ghost predicate SameLevel<V>(t: QTree<V>, t': QTree<V>)
  {
    t'.result == t.result && t'.cache == t.cache && t'.key == t.key && t'.queries.Keys == t.queries.Keys
  }

  /** Collapsing one level: optionally file each child's cache under the
      level's key, then drop the key and the children. The working set is
      left as it was. */
  ghost function Collapse<V>(t: QTree<V>, save: bool): QTree<V>
  {
    var cache := if save then t.cache[t.key := Branches(map k | k in t.queries :: t.queries[k].cache)] else t.cache;
    QTree(t.result, cache, "", map[])
  }

  /** The outcomes Flatten can have. IsDoubleDeep asks one child, picked
      arbitrarily, whether it is deep; so a level collapses if the pick is a
      flat child, and forwards to every child if the pick is a deep one. */
  ghost predicate Flattened<V>(t: QTree<V>, save: bool, t': QTree<V>)
    decreases t
  {
    if !t.Deep() then t' == t
    else
      || (SomeChildFlat(t) && t' == Collapse(t, save))
      || (&& SomeChildDeep(t) && SameLevel(t, t')
          && forall k | k in t.queries :: Flattened(t.queries[k], save, t'.queries[k]))
  }

  /** Pruning one level: the children `keep` rejects are removed, and so are
      their keys from the working set. */
  ghost function Prune<V>(t: QTree<V>, keep: QTree<V> -> bool): QTree<V>
  {
    var rejected := set k | k in t.queries && !keep(t.queries[k]);
    t.(result := t.result - rejected, queries := map k | k in t.queries && keep(t.queries[k]) :: t.queries[k])
  }

  /** The outcomes DeepFilter can have, with the same arbitrary pick as Flatten. */
  ghost predicate DeepFiltered<V>(t: QTree<V>, keep: QTree<V> -> bool, t': QTree<V>)
    decreases t
  {
    if !t.Deep() then t' == t
    else
      || (SomeChildFlat(t) && t' == Prune(t, keep))
      || (&& SomeChildDeep(t) && SameLevel(t, t')
          && forall k | k in t.queries :: DeepFiltered(t.queries[k], keep, t'.queries[k]))
  }

  /** The chained operations as data, to speak of any one of them. */
  datatype Op<!V> =
    | Traverse(dir: Direction, lbl: string)
    | FilterBy(pred: map<string, V> -> bool)
    | GetAll(name: string, keys: seq<string>)
    | GetSingle(name: string, keys: seq<string>)
    | DeepenBy(name: string)
    | FlattenBy(save: bool)
    | DeepFilterBy(keep: QTree<V> -> bool)
    | FlattenDeepestBy(save: bool)
    | DeepFilterDeepestBy(keep: QTree<V> -> bool)

  /** `t'` is an outcome of applying `op` to `t` over the store `s`. */
  ghost predicate Applied<V>(op: Op<V>, s: Store<V>, t: QTree<V>, t': QTree<V>)
  {
    match op
    case Traverse(dir, lbl) => t' == TraverseTree(t, s, dir, lbl)
    case FilterBy(pred) => t' == FilterTree(t, s, pred)
    case GetAll(name, keys) => t' == GetTree(t, s, name, keys)
    case GetSingle(name, keys) => t' == GetOneTree(t, s, name, keys)
    case DeepenBy(name) => t' == DeepenTree(t, s, name)
    case FlattenBy(save) => Flattened(t, save, t')
    case DeepFilterBy(keep) => DeepFiltered(t, keep, t')
    case FlattenDeepestBy(save) => t' == FlattenDeepest(t, save)
    case DeepFilterDeepestBy(keep) => t' == DeepFilterDeepest(t, keep)
  }

  /** On a deep query, Out / In leave the level itself as it was and apply
      to every child. */
  lemma TraverseOnChildren<V>(s: Store<V>, t: QTree<V>, t': QTree<V>, dir: Direction, lbl: string)
    requires t.Deep() && SameLevel(t, t')
    requires forall k | k in t.queries :: Applied(Traverse(dir, lbl), s, t.queries[k], t'.queries[k])
    ensures t' == TraverseTree(t, s, dir, lbl)
  {
    SameEntries(t'.queries, TraverseTree(t, s, dir, lbl).queries);
  }

  /** On a deep query, FilterNodes applies to every child only. */
  lemma FilterOnChildren<V>(s: Store<V>, t: QTree<V>, t': QTree<V>, pred: map<string, V> -> bool)
    requires t.Deep() && SameLevel(t, t')
    requires forall k | k in t.queries :: Applied(FilterBy(pred), s, t.queries[k], t'.queries[k])
    ensures t' == FilterTree(t, s, pred)
  {
    SameEntries(t'.queries, FilterTree(t, s, pred).queries);
  }

  /** On a deep query, Get applies to every child only. */
  lemma GetOnChildren<V>(s: Store<V>, t: QTree<V>, t': QTree<V>, name: string, keys: seq<string>)
    requires t.Deep() && SameLevel(t, t')
    requires forall k | k in t.queries :: Applied(GetAll(name, keys), s, t.queries[k], t'.queries[k])
    ensures t' == GetTree(t, s, name, keys)
  {
    SameEntries(t'.queries, GetTree(t, s, name, keys).queries);
  }

  /** On a deep query, GetOne applies to every child only. */
  lemma GetOneOnChildren<V>(s: Store<V>, t: QTree<V>, t': QTree<V>, name: string, keys: seq<string>)
    requires t.Deep() && SameLevel(t, t')
    requires forall k | k in t.queries :: Applied(GetSingle(name, keys), s, t.queries[k], t'.queries[k])
    ensures t' == GetOneTree(t, s, name, keys)
  {
    SameEntries(t'.queries, GetOneTree(t, s, name, keys).queries);
  }

  /** On a deep query, Deepen applies to every child only. */
  lemma DeepenOnChildren<V>(s: Store<V>, t: QTree<V>, t': QTree<V>, name: string)
    requires t.Deep() && SameLevel(t, t')
    requires forall k | k in t.queries :: Applied(DeepenBy(name), s, t.queries[k], t'.queries[k])
    ensures t' == DeepenTree(t, s, name)
  {
    SameEntries(t'.queries, DeepenTree(t, s, name).queries);
  }

  /** Where some child is deep, the intended Flatten applies to every child only. */
  lemma FlattenDeepestOnChildren<V>(s: Store<V>, t: QTree<V>, t': QTree<V>, save: bool)
    requires t.Deep() && SomeChildDeep(t) && SameLevel(t, t')
    requires forall k | k in t.queries :: Applied(FlattenDeepestBy(save), s, t.queries[k], t'.queries[k])
    ensures t' == FlattenDeepest(t, save)
  {
    SameEntries(t'.queries, FlattenDeepest(t, save).queries);
  }

  /** Where some child is deep, the intended DeepFilter applies to every child only. */
  lemma DeepFilterDeepestOnChildren<V>(s: Store<V>, t: QTree<V>, t': QTree<V>, keep: QTree<V> -> bool)
    requires t.Deep() && SomeChildDeep(t) && SameLevel(t, t')
    requires forall k | k in t.queries :: Applied(DeepFilterDeepestBy(keep), s, t.queries[k], t'.queries[k])
    ensures t' == DeepFilterDeepest(t, keep)
  {
    SameEntries(t'.queries, DeepFilterDeepest(t, keep).queries);
  }

  /** Where the pick lands on a deep child, Flatten applies to every child only. */
  lemma FlattenOnChildren<V>(s: Store<V>, t: QTree<V>, t': QTree<V>, save: bool)
    requires t.Deep() && SomeChildDeep(t) && SameLevel(t, t')
    requires forall k | k in t.queries :: Applied(FlattenBy(save), s, t.queries[k], t'.queries[k])
    ensures Flattened(t, save, t')
  {
  }

  /** Where the pick lands on a deep child, DeepFilter applies to every child only. */
  lemma DeepFilterOnChildren<V>(s: Store<V>, t: QTree<V>, t': QTree<V>, keep: QTree<V> -> bool)
    requires t.Deep() && SomeChildDeep(t) && SameLevel(t, t')
    requires forall k | k in t.queries :: Applied(DeepFilterBy(keep), s, t.queries[k], t'.queries[k])
    ensures DeepFiltered(t, keep, t')
  {
  }

  /** Collapsing a deep level with a flat child is an outcome of Flatten. */
  lemma CollapseApplies<V>(t: QTree<V>, save: bool)
    requires t.Deep() && SomeChildFlat(t)
    ensures Flattened(t, save, Collapse(t, save))
  {
  }

  /** Removing the rejected children, and their keys from the working set,
      is pruning. */
  lemma PrunedByRemoval<V>(t: QTree<V>, keep: QTree<V> -> bool, discard: seq<string>, kept: set<string>,
                           rest: set<string>)
    requires forall k :: k in discard <==> k in t.queries && !keep(t.queries[k])
    requires kept == t.result - set k | k in discard
    requires rest == t.queries.Keys - set k | k in discard
    ensures QTree(kept, t.cache, t.key, map k | k in rest :: t.queries[k]) == Prune(t, keep)
  {
    var rejected := set k | k in discard;
    assert rejected == set k | k in t.queries && !keep(t.queries[k]);
    SameEntries(map k | k in rest :: t.queries[k], Prune(t, keep).queries);
  }

  /** Pruning a deep level with a flat child is an outcome of DeepFilter. */
  lemma PruneApplies<V>(t: QTree<V>, keep: QTree<V> -> bool)
    requires t.Deep() && SomeChildFlat(t)
    ensures DeepFiltered(t, keep, Prune(t, keep))
  {
  }

  // ---------------------------------------------------------------------------
  // Laws of traversal
  // ---------------------------------------------------------------------------

  /** Reference definition of a traversal step: on a consistent store,
      following the adjacency index gives exactly the far endpoints of the
      edges with that label whose near endpoint is in the working set. */
  lemma {:induction false} StepMatchesEdges<V>(s: Store<V>, from: set<string>, dir: Direction, lbl: string)
    requires Consistent(s)
    ensures Step(s, from, dir, lbl)
            == set ekey | ekey in s.edges && Near(s.edges[ekey], dir) in from && s.edges[ekey].lbl == lbl
                 :: Far(s.edges[ekey], dir)
  {
    var scanned := set ekey | ekey in s.edges && Near(s.edges[ekey], dir) in from && s.edges[ekey].lbl == lbl
                     :: Far(s.edges[ekey], dir);
    forall n | n in Step(s, from, dir, lbl) ensures n in scanned {
      var k :| k in from && n in Hop(s, k, dir, lbl);
      var adj := Adjacency(s.nodes[k], dir);
      var ekey :| ekey in adj && adj[ekey] == lbl && ekey in s.edges && Far(s.edges[ekey], dir) in s.nodes
                  && Far(s.edges[ekey], dir) == n;
      assert Anchored(s, ekey);
      if dir == Outgoing {
        assert ekey in s.nodes[k].outAdj;
      } else {
        assert ekey in s.nodes[k].inAdj;
      }
    }
    forall n | n in scanned ensures n in Step(s, from, dir, lbl) {
      var ekey :| ekey in s.edges && Near(s.edges[ekey], dir) in from && s.edges[ekey].lbl == lbl
                  && Far(s.edges[ekey], dir) == n;
      assert Anchored(s, ekey);
      var k := Near(s.edges[ekey], dir);
      assert n in Hop(s, k, dir, lbl);
    }
  }

  /** On a consistent store, b is an Out-neighbour of a exactly when a is an
      In-neighbour of b. */
  lemma OutInDual<V>(s: Store<V>, a: string, b: string, lbl: string)
    requires Consistent(s)
    ensures b in Step(s, {a}, Outgoing, lbl) <==> a in Step(s, {b}, Incoming, lbl)
  {
    StepMatchesEdges(s, {a}, Outgoing, lbl);
    StepMatchesEdges(s, {b}, Incoming, lbl);
    if b in Step(s, {a}, Outgoing, lbl) {
      var ekey :| ekey in s.edges && Near(s.edges[ekey], Outgoing) in {a} && s.edges[ekey].lbl == lbl
                  && Far(s.edges[ekey], Outgoing) == b;
      assert Far(s.edges[ekey], Incoming) == a;
    }
    if a in Step(s, {b}, Incoming, lbl) {
      var ekey :| ekey in s.edges && Near(s.edges[ekey], Incoming) in {b} && s.edges[ekey].lbl == lbl
                  && Far(s.edges[ekey], Incoming) == a;
      assert Far(s.edges[ekey], Outgoing) == b;
    }
  }

  /** After MergeEdge creates an edge a -> b labelled `lbl`, Out(lbl) from a
      reaches exactly what it reached before plus b, and In(lbl) from b
      reaches exactly what it reached before plus a. */
  lemma MergeEdgeAddsNeighbour<V>(s: Store<V>, ekey: string, lbl: string, a: string, b: string,
                                  props: map<string, V>)
    requires ekey !in s.edges && a in s.nodes && b in s.nodes
    ensures var s' := AfterMergeEdge(s, ekey, lbl, a, b, props);
      && Step(s', {a}, Outgoing, lbl) == Step(s, {a}, Outgoing, lbl) + {b}
      && Step(s', {b}, Incoming, lbl) == Step(s, {b}, Incoming, lbl) + {a}
  {
    var s' := AfterMergeEdge(s, ekey, lbl, a, b, props);
    OutHopGains(s, ekey, lbl, a, b, props);
    InHopGains(s, ekey, lbl, a, b, props);
    SingleStep(s, a, Outgoing, lbl);
    SingleStep(s', a, Outgoing, lbl);
    SingleStep(s, b, Incoming, lbl);
    SingleStep(s', b, Incoming, lbl);
  }

  /** The outgoing half of MergeEdgeAddsNeighbour, for one hop. */
  lemma OutHopGains<V>(s: Store<V>, ekey: string, lbl: string, a: string, b: string, props: map<string, V>)
    requires ekey !in s.edges && a in s.nodes && b in s.nodes
    ensures var s' := AfterMergeEdge(s, ekey, lbl, a, b, props);
      Hop(s', a, Outgoing, lbl) == Hop(s, a, Outgoing, lbl) + {b}
  {
    var s' := AfterMergeEdge(s, ekey, lbl, a, b, props);
    LinkedIndex(s, ekey, lbl, a, b, props);
    forall n | n in Hop(s', a, Outgoing, lbl) ensures n in Hop(s, a, Outgoing, lbl) + {b} {
      var x :| x in s'.nodes[a].outAdj && s'.nodes[a].outAdj[x] == lbl && x in s'.edges
               && s'.edges[x].end in s'.nodes && s'.edges[x].end == n;
      if x != ekey {
        assert x in s.nodes[a].outAdj;
      }
    }
    forall n | n in Hop(s, a, Outgoing, lbl) ensures n in Hop(s', a, Outgoing, lbl) {
      var x :| x in s.nodes[a].outAdj && s.nodes[a].outAdj[x] == lbl && x in s.edges
               && s.edges[x].end in s.nodes && s.edges[x].end == n;
      assert x != ekey && x in s'.nodes[a].outAdj && s'.edges[x] == s.edges[x];
    }
    assert ekey in s'.nodes[a].outAdj && s'.nodes[a].outAdj[ekey] == lbl && s'.edges[ekey].end == b;
  }

  /** The incoming half of MergeEdgeAddsNeighbour, for one hop. */
  lemma InHopGains<V>(s: Store<V>, ekey: string, lbl: string, a: string, b: string, props: map<string, V>)
    requires ekey !in s.edges && a in s.nodes && b in s.nodes
    ensures var s' := AfterMergeEdge(s, ekey, lbl, a, b, props);
      Hop(s', b, Incoming, lbl) == Hop(s, b, Incoming, lbl) + {a}
  {
    var s' := AfterMergeEdge(s, ekey, lbl, a, b, props);
    LinkedIndex(s, ekey, lbl, a, b, props);
    forall n | n in Hop(s', b, Incoming, lbl) ensures n in Hop(s, b, Incoming, lbl) + {a} {
      var x :| x in s'.nodes[b].inAdj && s'.nodes[b].inAdj[x] == lbl && x in s'.edges
               && s'.edges[x].start in s'.nodes && s'.edges[x].start == n;
      if x != ekey {
        assert x in s.nodes[b].inAdj;
      }
    }
    forall n | n in Hop(s, b, Incoming, lbl) ensures n in Hop(s', b, Incoming, lbl) {
      var x :| x in s.nodes[b].inAdj && s.nodes[b].inAdj[x] == lbl && x in s.edges
               && s.edges[x].start in s.nodes && s.edges[x].start == n;
      assert x != ekey && x in s'.nodes[b].inAdj && s'.edges[x] == s.edges[x];
    }
    assert ekey in s'.nodes[b].inAdj && s'.nodes[b].inAdj[ekey] == lbl && s'.edges[ekey].start == a;
  }

  /** A step from a single node is that node's hop. */
  lemma SingleStep<V>(s: Store<V>, k: string, dir: Direction, lbl: string)
    ensures Step(s, {k}, dir, lbl) == Hop(s, k, dir, lbl)
  {
  }

  /** Adding a node to the working set adds its hop to the step. */
  lemma StepAddsHop<V>(s: Store<V>, from: set<string>, k: string, dir: Direction, lbl: string)
    ensures Step(s, from + {k}, dir, lbl) == Step(s, from, dir, lbl) + Hop(s, k, dir, lbl)
  {
  }

  /** A set of one element that contains `k` is `{k}`. */
  lemma OnlyMember<X>(xs: set<X>, k: X)
    requires |xs| == 1 && k in xs
    ensures xs == {k}
  {
    assert |xs - {k}| == 0;
  }

  /** The nodes gathered from all children of a level. */
  ghost function Gathered<V>(t: QTree<V>): set<string>
  {
    set k, n | k in t.queries && n in t.queries[k].result :: n
  }

  /** Branching does not change what a traversal reaches: deepening a flat
      query whose nodes all resolve and then traversing reaches, over all
      branches together, exactly what traversing the flat query reaches. */
  lemma {:induction false} DeepenThenStep<V>(t: QTree<V>, s: Store<V>, name: string, dir: Direction, lbl: string)
    requires !t.Deep() && t.result <= s.nodes.Keys
    ensures Gathered(TraverseTree(DeepenTree(t, s, name), s, dir, lbl)) == Step(s, t.result, dir, lbl)
  {
    var d := DeepenTree(t, s, name);
    var w := TraverseTree(d, s, dir, lbl);
    if t.result == {} {
      assert !d.Deep();
    } else {
      var k0 :| k0 in t.result;
      assert d.queries[k0] == Root(s, [k0]);
      assert d.Deep();
      forall k | k in t.result ensures w.queries[k].result == Hop(s, k, dir, lbl) {
        assert w.queries[k] == TraverseTree(d.queries[k], s, dir, lbl);
        assert Found(s, [k]) == {k};
        SingleStep(s, k, dir, lbl);
      }
      forall n | n in Step(s, t.result, dir, lbl) ensures n in Gathered(w) {
        var k :| k in t.result && n in Hop(s, k, dir, lbl);
        assert n in w.queries[k].result;
      }
    }
  }

  // ---------------------------------------------------------------------------
  // Laws of forwarding: what the leaf operations leave alone
  // ---------------------------------------------------------------------------

  /** The tree with the working sets of its flat levels blanked out. */
  ghost function WithoutLeafResults<V>(t: QTree<V>): QTree<V>
    decreases t
  {
    if t.Deep() then t.(queries := map k | k in t.queries :: WithoutLeafResults(t.queries[k]))
    else t.(result := {})
  }

  /** The tree with the caches of its flat levels blanked out. */
  ghost function WithoutLeafCaches<V>(t: QTree<V>): QTree<V>
    decreases t
  {
    if t.Deep() then t.(queries := map k | k in t.queries :: WithoutLeafCaches(t.queries[k]))
    else t.(cache := map[])
  }

  /** Out and In change only the working sets of flat levels: every deep
      level keeps its working set, cache, key and child keys, at any depth. */
  lemma {:induction false} TraverseChangesOnlyLeafResults<V>(t: QTree<V>, s: Store<V>, dir: Direction, lbl: string)
    ensures WithoutLeafResults(TraverseTree(t, s, dir, lbl)) == WithoutLeafResults(t)
    decreases t
  {
    if t.Deep() {
      forall k | k in t.queries
        ensures WithoutLeafResults(TraverseTree(t.queries[k], s, dir, lbl)) == WithoutLeafResults(t.queries[k])
      {
        TraverseChangesOnlyLeafResults(t.queries[k], s, dir, lbl);
      }
      var t' := TraverseTree(t, s, dir, lbl);
      assert t'.queries.Keys == t.queries.Keys;
      assert WithoutLeafResults(t').queries == WithoutLeafResults(t).queries;
    }
  }

  /** FilterNodes changes only the working sets of flat levels. */
  lemma {:induction false} FilterChangesOnlyLeafResults<V>(t: QTree<V>, s: Store<V>, pred: map<string, V> -> bool)
    ensures WithoutLeafResults(FilterTree(t, s, pred)) == WithoutLeafResults(t)
    decreases t
  {
    if t.Deep() {
      forall k | k in t.queries
        ensures WithoutLeafResults(FilterTree(t.queries[k], s, pred)) == WithoutLeafResults(t.queries[k])
      {
        FilterChangesOnlyLeafResults(t.queries[k], s, pred);
      }
      var t' := FilterTree(t, s, pred);
      assert t'.queries.Keys == t.queries.Keys;
      assert WithoutLeafResults(t').queries == WithoutLeafResults(t).queries;
    }
  }

  /** Get changes only the caches of flat levels. */
  lemma {:induction false} GetChangesOnlyLeafCaches<V>(t: QTree<V>, s: Store<V>, name: string, keys: seq<string>)
    ensures WithoutLeafCaches(GetTree(t, s, name, keys)) == WithoutLeafCaches(t)
    decreases t
  {
    if t.Deep() {
      forall k | k in t.queries
        ensures WithoutLeafCaches(GetTree(t.queries[k], s, name, keys)) == WithoutLeafCaches(t.queries[k])
      {
        GetChangesOnlyLeafCaches(t.queries[k], s, name, keys);
      }
      var t' := GetTree(t, s, name, keys);
      assert t'.queries.Keys == t.queries.Keys;
      assert WithoutLeafCaches(t').queries == WithoutLeafCaches(t).queries;
    }
  }

  /** GetOne changes only the caches of flat levels. */
  lemma {:induction false} GetOneChangesOnlyLeafCaches<V>(t: QTree<V>, s: Store<V>, name: string, keys: seq<string>)
    ensures WithoutLeafCaches(GetOneTree(t, s, name, keys)) == WithoutLeafCaches(t)
    decreases t
  {
    if t.Deep() {
      forall k | k in t.queries
        ensures WithoutLeafCaches(GetOneTree(t.queries[k], s, name, keys)) == WithoutLeafCaches(t.queries[k])
      {
        GetOneChangesOnlyLeafCaches(t.queries[k], s, name, keys);
      }
      var t' := GetOneTree(t, s, name, keys);
      assert t'.queries.Keys == t.queries.Keys;
      assert WithoutLeafCaches(t').queries == WithoutLeafCaches(t).queries;
    }
  }

  /** Filtering twice is filtering once by both predicates, at any depth. */
  lemma {:induction false} FilterComposes<V>(t: QTree<V>, s: Store<V>, p: map<string, V> -> bool, q: map<string, V> -> bool)
    ensures FilterTree(FilterTree(t, s, p), s, q) == FilterTree(t, s, props => p(props) && q(props))
    decreases t
  {
    if t.Deep() {
      forall k | k in t.queries
        ensures FilterTree(FilterTree(t.queries[k], s, p), s, q) == FilterTree(t.queries[k], s, props => p(props) && q(props))
      {
        FilterComposes(t.queries[k], s, p, q);
      }
      assert FilterTree(t, s, p).queries.Keys == t.queries.Keys;
    } else {
      assert Kept(s, Kept(s, t.result, p), q) == Kept(s, t.result, props => p(props) && q(props));
    }
  }

  // ---------------------------------------------------------------------------
  // Laws of projection
  // ---------------------------------------------------------------------------

  /** FilterNodes on a flat, resolved level keeps exactly the working-set
      nodes whose properties satisfy the predicate, and nothing else changes. */
  lemma FilterOnFlat<V>(t: QTree<V>, s: Store<V>, pred: map<string, V> -> bool)
    requires !t.Deep() && Resolved(t, s)
    ensures var t' := FilterTree(t, s, pred);
      && t'.result <= t.result
      && (forall k | k in t.result :: k in t'.result <==> pred(s.nodes[k].props))
      && t'.cache == t.cache && t'.key == t.key && t'.queries == t.queries
  {
  }

  /** Get on a flat level writes one entry per working-set node under `name`,
      holding exactly the requested properties that node has; no other
      cache entry changes. */
  lemma GetOnFlat<V>(t: QTree<V>, s: Store<V>, name: string, keys: seq<string>)
    requires !t.Deep()
    ensures var t' := GetTree(t, s, name, keys);
      && t'.result == t.result && t'.key == t.key && t'.queries == t.queries
      && name in t'.cache && t'.cache[name].PerNode?
      && t'.cache[name].perNode.Keys == t.result
      && (forall k, p | k in t.result ::
            p in t'.cache[name].perNode[k] <==> p in keys && k in s.nodes && p in s.nodes[k].props)
      && (forall k, p | k in t.result && p in t'.cache[name].perNode[k] ::
            t'.cache[name].perNode[k][p] == s.nodes[k].props[p])
      && (forall c | c in t.cache && c != name :: c in t'.cache && t'.cache[c] == t.cache[c])
  {
  }

  /** GetOne on a flat level leaves the level untouched unless its working set
      is exactly one node; then it writes that node's requested properties. */
  lemma {:induction false} GetOneOnFlat<V>(t: QTree<V>, s: Store<V>, name: string, keys: seq<string>)
    requires !t.Deep()
    ensures |t.result| != 1 ==> GetOneTree(t, s, name, keys) == t
    ensures forall k :: t.result == {k} ==>
      GetOneTree(t, s, name, keys) == t.(cache := t.cache[name := Single(Projection(s, k, keys))])
  {
    forall k | t.result == {k}
      ensures GetOneTree(t, s, name, keys) == t.(cache := t.cache[name := Single(Projection(s, k, keys))])
    {
      var j :| j in t.result;
      assert j == k;
    }
  }

  // ---------------------------------------------------------------------------
  // Laws of Deepen, Flatten and DeepFilter
  // ---------------------------------------------------------------------------

  /** Deepen on a flat level: the working set and cache are kept, the key is
      recorded, and there is one flat, cacheless child per working-set node,
      rooted at that node if it still exists. With an empty working set the
      level stays flat. */
  lemma DeepenOnFlat<V>(t: QTree<V>, s: Store<V>, name: string)
    requires !t.Deep()
    ensures var d := DeepenTree(t, s, name);
      && d.result == t.result && d.cache == t.cache && d.key == name
      && d.queries.Keys == t.result
      && (d.Deep() <==> t.result != {})
      && (forall k | k in d.queries ::
            && !d.queries[k].Deep() && d.queries[k].cache == map[] && d.queries[k].key == ""
            && d.queries[k].result == (if k in s.nodes then {k} else {}))
  {
    var d := DeepenTree(t, s, name);
    forall k | k in d.queries ensures d.queries[k].result == (if k in s.nodes then {k} else {}) {
      assert Found(s, [k]) == (if k in s.nodes then {k} else {});
    }
    if t.result != {} {
      var k :| k in t.result;
      assert k in d.queries;
    }
  }

  /** Flatten at the bottom (no child is deep): a flat level is left alone,
      a deep one is collapsed. */
  lemma FlattenAtBottom<V>(t: QTree<V>, save: bool, t': QTree<V>)
    requires forall k | k in t.queries :: !t.queries[k].Deep()
    ensures Flattened(t, save, t') <==> t' == (if t.Deep() then Collapse(t, save) else t)
  {
    if t.Deep() {
      var k :| k in t.queries;
      assert !t.queries[k].Deep();
    }
  }

  /** Deepen(name) then Flatten(true) on a flat query gives back a flat query
      with the same working set whose cache holds, under `name`, one empty
      cache per node of the original working set. With an empty working set
      Deepen creates no children, Flatten does nothing, and only the key
      remains set. */
  lemma {:induction false} DeepenFlattenRoundTrip<V>(t: QTree<V>, s: Store<V>, name: string, t': QTree<V>)
    requires !t.Deep()
    ensures Flattened(DeepenTree(t, s, name), true, t') <==>
      t' == if t.result == {} then t.(key := name)
            else QTree(t.result, t.cache[name := Branches(map k | k in t.result :: map[])], "", map[])
  {
    var d := DeepenTree(t, s, name);
    DeepenOnFlat(t, s, name);
    FlattenAtBottom(d, true, t');
    if t.result != {} {
      assert (map k | k in d.queries :: d.queries[k].cache) == (map k | k in t.result :: map[]);
    }
  }

  /** Pruning keeps the working set and the child keys in step: if they
      agreed before (as after Deepen), they agree after. */
  lemma PruneKeepsInStep<V>(t: QTree<V>, keep: QTree<V> -> bool)
    requires t.queries.Keys == t.result
    ensures Prune(t, keep).queries.Keys == Prune(t, keep).result
  {
  }

  /** DeepFilter at the bottom: a flat level is left alone; on a deep one the
      surviving children are exactly those `keep` accepts, unchanged, and the
      working set loses exactly the keys of the rejected ones. */
  lemma DeepFilterAtBottom<V>(t: QTree<V>, keep: QTree<V> -> bool, t': QTree<V>)
    requires forall k | k in t.queries :: !t.queries[k].Deep()
    ensures DeepFiltered(t, keep, t') <==> t' == (if t.Deep() then Prune(t, keep) else t)
    ensures t.Deep() ==> var p := Prune(t, keep);
      && (forall k :: k in p.queries <==> k in t.queries && keep(t.queries[k]))
      && (forall k | k in p.queries :: p.queries[k] == t.queries[k])
      && (forall k :: k in p.result <==> k in t.result && !(k in t.queries && !keep(t.queries[k])))
      && p.cache == t.cache && p.key == t.key
  {
    if t.Deep() {
      var k :| k in t.queries;
      assert !t.queries[k].Deep();
    }
  }

  /** Deepen then DeepFilter with a predicate that rejects everything leaves
      no children and an empty working set. */
  lemma {:induction false} DeepenRejectAll<V>(t: QTree<V>, s: Store<V>, name: string, keep: QTree<V> -> bool,
                                              t': QTree<V>)
    requires !t.Deep()
    requires forall q :: !keep(q)
    ensures DeepFiltered(DeepenTree(t, s, name), keep, t') <==> t' == QTree({}, t.cache, name, map[])
  {
    var d := DeepenTree(t, s, name);
    DeepenOnFlat(t, s, name);
    DeepFilterAtBottom(d, keep, t');
    if t.result != {} {
      assert Prune(d, keep).queries == map[];
      assert Prune(d, keep).result == {};
    }
  }

  // ---------------------------------------------------------------------------
  // The arbitrary pick of IsDoubleDeep
  // ---------------------------------------------------------------------------

  /** Every level's children are all deep or all flat. */
  ghost predicate Uniform<V>(t: QTree<V>)
    decreases t
  {
    && (forall k, k' | k in t.queries && k' in t.queries :: t.queries[k].Deep() == t.queries[k'].Deep())
    && (forall k | k in t.queries :: Uniform(t.queries[k]))
  }

  /** Flatten as intended: collapse the level above the deepest leaves,
      forwarding whenever any child is deep. */
  ghost function FlattenDeepest<V>(t: QTree<V>, save: bool): QTree<V>
    decreases t
  {
    if !t.Deep() then t
    else if SomeChildDeep(t) then t.(queries := map k | k in t.queries :: FlattenDeepest(t.queries[k], save))
    else Collapse(t, save)
  }

  /** The intended Flatten is always one of the outcomes the code can have:
      the one where every pick lands on a deep child when there is one. */
  lemma {:induction false} FlattenDeepestIsAnOutcome<V>(t: QTree<V>, save: bool)
    ensures Flattened(t, save, FlattenDeepest(t, save))
    decreases t
  {
    if t.Deep() {
      if SomeChildDeep(t) {
        forall k | k in t.queries ensures Flattened(t.queries[k], save, FlattenDeepest(t.queries[k], save)) {
          FlattenDeepestIsAnOutcome(t.queries[k], save);
        }
      } else {
        var k :| k in t.queries;
        assert !t.queries[k].Deep();
      }
    }
  }

  /** When every level's children agree on depth, the pick does not matter:
      Flatten has exactly one outcome, the intended one. */
  lemma FlattenUniform<V>(t: QTree<V>, save: bool, t': QTree<V>)
    requires Uniform(t)
    ensures Flattened(t, save, t') <==> t' == FlattenDeepest(t, save)
  {
    FlattenDeepestIsAnOutcome(t, save);
    if Flattened(t, save, t') {
      FlattenOnlyOutcome(t, save, t');
    }
  }

  /** Two maps with the same keys and the same value at every key are equal. */
  lemma SameEntries<K, X>(m: map<K, X>, m': map<K, X>)
    requires m.Keys == m'.Keys
    requires forall k | k in m :: m[k] == m'[k]
    ensures m == m'
  {
  }

  /** Where some child is deep, the intended Flatten forwards to every child. */
  lemma FlattenDeepestForwards<V>(t: QTree<V>, save: bool)
    requires t.Deep() && SomeChildDeep(t)
    ensures var fd := FlattenDeepest(t, save);
      && SameLevel(t, fd)
      && forall k | k in t.queries :: fd.queries[k] == FlattenDeepest(t.queries[k], save)
  {
  }

  /** The uniqueness half of FlattenUniform. */
  lemma {:induction false} FlattenOnlyOutcome<V>(t: QTree<V>, save: bool, t': QTree<V>)
    requires Uniform(t) && Flattened(t, save, t')
    ensures t' == FlattenDeepest(t, save)
    decreases t
  {
    if t.Deep() {
      var k0 :| k0 in t.queries;
      if t.queries[k0].Deep() {
        assert SomeChildDeep(t) && !SomeChildFlat(t);
        assert SameLevel(t, t') && forall k | k in t.queries :: Flattened(t.queries[k], save, t'.queries[k]);
        var fd := FlattenDeepest(t, save);
        FlattenDeepestForwards(t, save);
        forall k | k in t.queries ensures t'.queries[k] == fd.queries[k] {
          FlattenOnlyOutcome(t.queries[k], save, t'.queries[k]);
        }
        SameEntries(t'.queries, fd.queries);
      } else {
        assert !SomeChildDeep(t);
      }
    }
  }

  /** A query whose two branches differ in depth, as arises when one branch's
      working set is empty at the second Deepen: branch "a" has a child of its
      own, branch "b" has none. */
  ghost function Skewed<V>(): QTree<V>
  {
    var leaf := QTree({"c"}, map[], "", map[]);
    QTree({"a", "b"}, map[], "x",
          map["a" := QTree({"c"}, map[], "y", map["c" := leaf]), "b" := QTree({}, map[], "y", map[])])
  }

  /** On that query the code may collapse the upper level, discarding branch
      "a"'s subtree, whereas the intended Flatten collapses only the level
      below "a". */
  lemma FlattenSkewed<V>()
    ensures SomeChildDeep(Skewed<V>())
    ensures Flattened(Skewed<V>(), true, Collapse(Skewed<V>(), true))
    ensures Collapse(Skewed<V>(), true) != FlattenDeepest(Skewed<V>(), true)
  {
    var t := Skewed<V>();
    assert "c" in t.queries["a"].queries;
    assert !t.queries["b"].Deep();
    assert FlattenDeepest(t, true).queries != map[] by {
      assert "a" in FlattenDeepest(t, true).queries;
    }
  }

  /** DeepFilter as intended: prune the level above the deepest leaves,
      forwarding whenever any child is deep. */
  ghost function DeepFilterDeepest<V>(t: QTree<V>, keep: QTree<V> -> bool): QTree<V>
    decreases t
  {
    if !t.Deep() then t
    else if SomeChildDeep(t) then t.(queries := map k | k in t.queries :: DeepFilterDeepest(t.queries[k], keep))
    else Prune(t, keep)
  }

  /** The intended DeepFilter is always one of the outcomes the code can have. */
  lemma {:induction false} DeepFilterDeepestIsAnOutcome<V>(t: QTree<V>, keep: QTree<V> -> bool)
    ensures DeepFiltered(t, keep, DeepFilterDeepest(t, keep))
    decreases t
  {
    if t.Deep() {
      if SomeChildDeep(t) {
        forall k | k in t.queries ensures DeepFiltered(t.queries[k], keep, DeepFilterDeepest(t.queries[k], keep)) {
          DeepFilterDeepestIsAnOutcome(t.queries[k], keep);
        }
      } else {
        var k :| k in t.queries;
        assert !t.queries[k].Deep();
      }
    }
  }

  /** When every level's children agree on depth, DeepFilter has exactly one
      outcome, the intended one. */
  lemma DeepFilterUniform<V>(t: QTree<V>, keep: QTree<V> -> bool, t': QTree<V>)
    requires Uniform(t)
    ensures DeepFiltered(t, keep, t') <==> t' == DeepFilterDeepest(t, keep)
  {
    DeepFilterDeepestIsAnOutcome(t, keep);
    if DeepFiltered(t, keep, t') {
      DeepFilterOnlyOutcome(t, keep, t');
    }
  }

  /** Where some child is deep, the intended DeepFilter forwards to every child. */
  lemma DeepFilterDeepestForwards<V>(t: QTree<V>, keep: QTree<V> -> bool)
    requires t.Deep() && SomeChildDeep(t)
    ensures var fd := DeepFilterDeepest(t, keep);
      && SameLevel(t, fd)
      && forall k | k in t.queries :: fd.queries[k] == DeepFilterDeepest(t.queries[k], keep)
  {
  }

  /** The uniqueness half of DeepFilterUniform. */
  lemma {:induction false} DeepFilterOnlyOutcome<V>(t: QTree<V>, keep: QTree<V> -> bool, t': QTree<V>)
    requires Uniform(t) && DeepFiltered(t, keep, t')
    ensures t' == DeepFilterDeepest(t, keep)
    decreases t
  {
    if t.Deep() {
      var k0 :| k0 in t.queries;
      if t.queries[k0].Deep() {
        assert SomeChildDeep(t) && !SomeChildFlat(t);
        assert SameLevel(t, t') && forall k | k in t.queries :: DeepFiltered(t.queries[k], keep, t'.queries[k]);
        var fd := DeepFilterDeepest(t, keep);
        DeepFilterDeepestForwards(t, keep);
        forall k | k in t.queries ensures t'.queries[k] == fd.queries[k] {
          DeepFilterOnlyOutcome(t.queries[k], keep, t'.queries[k]);
        }
        SameEntries(t'.queries, fd.queries);
      } else {
        assert !SomeChildDeep(t);
      }
    }
  }

  /** On the skewed query, a DeepFilter that rejects every branch may prune
      the upper level, emptying the whole query, whereas the intended one
      prunes only below branch "a" and keeps both branches. */
  lemma DeepFilterSkewed<V>()
    ensures DeepFiltered(Skewed<V>(), q => false, Prune(Skewed<V>(), q => false))
    ensures Prune(Skewed<V>(), q => false).queries == map[]
    ensures DeepFilterDeepest(Skewed<V>(), q => false).queries.Keys == {"a", "b"}
  {
    var t := Skewed<V>();
    assert "c" in t.queries["a"].queries;
    assert !t.queries["b"].Deep();
  }

  // ---------------------------------------------------------------------------
  // The working sets stay resolved
  // ---------------------------------------------------------------------------

  /** Every working set in the tree names only nodes of the store. */
  ghost predicate Resolved<V>(t: QTree<V>, s: Store<V>)
    decreases t
  {
    && t.result <= s.nodes.Keys
    && forall k | k in t.queries :: Resolved(t.queries[k], s)
  }

  /** A fresh query is resolved: NewQuery skips the missing start keys. */
  lemma RootResolved<V>(s: Store<V>, starts: seq<string>)
    ensures Resolved(Root(s, starts), s)
  {
  }

  /** Every operation keeps the working sets resolved against a store that
      does not change meanwhile. So resolving the working set's keys against
      the graph, as this model does, agrees with holding the node records
      themselves, as query.go does. */
  lemma AppliedKeepsResolved<V>(op: Op<V>, s: Store<V>, t: QTree<V>, t': QTree<V>)
    requires Resolved(t, s) && Applied(op, s, t, t')
    ensures Resolved(t', s)
  {
    match op
    case FlattenBy(save) =>
      FlattenedKeepsResolved(t, s, save, t');
    case DeepFilterBy(keep) =>
      DeepFilteredKeepsResolved(t, s, keep, t');
    case FlattenDeepestBy(save) =>
      FlattenDeepestIsAnOutcome(t, save);
      FlattenedKeepsResolved(t, s, save, t');
    case DeepFilterDeepestBy(keep) =>
      DeepFilterDeepestIsAnOutcome(t, keep);
      DeepFilteredKeepsResolved(t, s, keep, t');
    case _ =>
      MappedKeepsResolved(op, s, t, t');
  }

  /** Flatten keeps the working sets resolved. */
  lemma {:induction false} FlattenedKeepsResolved<V>(t: QTree<V>, s: Store<V>, save: bool, t': QTree<V>)
    requires Resolved(t, s) && Flattened(t, save, t')
    ensures Resolved(t', s)
    decreases t
  {
    if t.Deep() && !(SomeChildFlat(t) && t' == Collapse(t, save)) {
      forall k | k in t'.queries ensures Resolved(t'.queries[k], s) {
        FlattenedKeepsResolved(t.queries[k], s, save, t'.queries[k]);
      }
    }
  }

  /** DeepFilter keeps the working sets resolved. */
  lemma {:induction false} DeepFilteredKeepsResolved<V>(t: QTree<V>, s: Store<V>, keep: QTree<V> -> bool, t': QTree<V>)
    requires Resolved(t, s) && DeepFiltered(t, keep, t')
    ensures Resolved(t', s)
    decreases t
  {
    if t.Deep() && !(SomeChildFlat(t) && t' == Prune(t, keep)) {
      forall k | k in t'.queries ensures Resolved(t'.queries[k], s) {
        DeepFilteredKeepsResolved(t.queries[k], s, keep, t'.queries[k]);
      }
    } else if t.Deep() {
      forall k | k in t'.queries ensures Resolved(t'.queries[k], s) {
        assert t'.queries[k] == t.queries[k];
      }
    }
  }

  /** The operations that forward to every child of a deep query keep the
      working sets resolved. */
  lemma {:induction false} MappedKeepsResolved<V>(op: Op<V>, s: Store<V>, t: QTree<V>, t': QTree<V>)
    requires op.Traverse? || op.FilterBy? || op.GetAll? || op.GetSingle? || op.DeepenBy?
    requires Resolved(t, s) && Applied(op, s, t, t')
    ensures Resolved(t', s)
    decreases t
  {
    if t.Deep() {
      forall k | k in t'.queries ensures Resolved(t'.queries[k], s) {
        ChildApplied(op, s, t, t', k);
        MappedKeepsResolved(op, s, t.queries[k], t'.queries[k]);
      }
    }
  }

  /** Where one of those operations forwards, each child is its outcome. */
  lemma ChildApplied<V>(op: Op<V>, s: Store<V>, t: QTree<V>, t': QTree<V>, k: string)
    requires op.Traverse? || op.FilterBy? || op.GetAll? || op.GetSingle? || op.DeepenBy?
    requires t.Deep() && Applied(op, s, t, t') && k in t.queries
    ensures k in t'.queries && Applied(op, s, t.queries[k], t'.queries[k])
  {
  }
}
