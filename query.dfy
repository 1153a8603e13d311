/**
 The query objects of query.go. A `Query` holds a working set of node keys,
 a cache, a key and a map of child queries that it updates in place; each
 chained operation is a method proved to take the query tree (`View`) to
 the state the matching function or relation of Traversal describes.

 Children are separate objects, each owning its own subtree (`Repr`), so
 forwarding an operation to one child leaves its siblings untouched.
 */
module QueryEngine {
  import opened PropertyStore
  import opened GraphStore
  import opened Traversal

  /** The inner loop of Out / In for one node of the working set: follow the
      adjacency entries labelled `lbl`, skipping any whose edge or far node
      is missing. */
  method HopFrom<V>(g: Graph<V>, k: string, dir: Direction, lbl: string) returns (found: set<string>)
    ensures found == Hop(g.Snapshot(), k, dir, lbl)
  {
    found := {};
    if !g.HasNode(k) {
      return;
    }
    var adj := Adjacency(g.nodes[k], dir);
    var todo := adj.Keys;
    while todo != {}
      invariant todo <= adj.Keys
      invariant found == set ekey | ekey in adj && ekey !in todo && adj[ekey] == lbl && ekey in g.edges
                                    && Far(g.edges[ekey], dir) in g.nodes :: Far(g.edges[ekey], dir)
      decreases todo
    {
      var ekey :| ekey in todo;
      if adj[ekey] == lbl {
        var edge := g.GetEdge(ekey);
        if edge.Ok? {
          var far := Far(edge.value, dir);
          if g.HasNode(far) {
            found := found + {far};
          }
        }
      }
      todo := todo - {ekey};
    }
  }

  /** The outer loop of Out / In: the neighbours of every node of the
      working set. */
  method Neighbours<V>(g: Graph<V>, from: set<string>, dir: Direction, lbl: string) returns (next: set<string>)
    ensures next == Step(g.Snapshot(), from, dir, lbl)
  {
    next := {};
    var todo := from;
    while todo != {}
      invariant todo <= from
      invariant next == Step(g.Snapshot(), from - todo, dir, lbl)
      decreases todo
    {
      var k :| k in todo;
      var found := HopFrom(g, k, dir, lbl);
      StepAddsHop(g.Snapshot(), from - todo, k, dir, lbl);
      assert from - (todo - {k}) == (from - todo) + {k};
      next := next + found;
      todo := todo - {k};
    }
  }

  /** The loop of FilterNodes: the nodes of the working set that resolve and
      satisfy `pred`. */
  method Select<V>(g: Graph<V>, from: set<string>, pred: map<string, V> -> bool) returns (kept: set<string>)
    ensures kept <= from
    ensures forall k :: k in kept <==> k in from && k in g.nodes && pred(g.nodes[k].props)
  {
    kept := {};
    var todo := from;
    while todo != {}
      invariant todo <= from
      invariant kept == set k | k in from && k !in todo && k in g.nodes && pred(g.nodes[k].props)
      decreases todo
    {
      var k :| k in todo;
      if g.HasNode(k) && pred(g.nodes[k].props) {
        kept := kept + {k};
      }
      todo := todo - {k};
    }
  }

  /** The key loop of Get and GetOne for one node: the requested keys the
      node has, with their values; missing keys are skipped. */
  method ProjectProps<V>(props: map<string, V>, keys: seq<string>) returns (m: map<string, V>)
    ensures forall p :: p in m <==> p in keys && p in props
    ensures forall p | p in m :: m[p] == props[p]
  {
    m := map[];
    for i := 0 to |keys|
      invariant forall p :: p in m <==> p in keys[..i] && p in props
      invariant forall p | p in m :: m[p] == props[p]
    {
      if keys[i] in props {
        m := m[keys[i] := props[keys[i]]];
      }
    }
    assert keys[..|keys|] == keys;
  }

  /** The node loop of Get: one projection per node of the working set. */
  method ProjectAll<V>(g: Graph<V>, from: set<string>, keys: seq<string>) returns (out: map<string, map<string, V>>)
    ensures out.Keys == from
    ensures forall k | k in out :: out[k] == Projection(g.Snapshot(), k, keys)
  {
    out := map[];
    var todo := from;
    while todo != {}
      invariant todo <= from
      invariant out.Keys == from - todo
      invariant forall k | k in out :: out[k] == Projection(g.Snapshot(), k, keys)
      decreases todo
    {
      var k :| k in todo;
      var props: map<string, V> := map[];
      if g.HasNode(k) {
        props := g.nodes[k].props;
      }
      var m := ProjectProps(props, keys);
      assert m == Projection(g.Snapshot(), k, keys);
      out := out[k := m];
      todo := todo - {k};
    }
  }

  /** The child loop of Deepen on a flat query: a new query rooted at each
      node of the working set. */
  method NewChildren<V>(g: Graph?<V>, from: set<string>) returns (children: map<string, Query<V>>, ghost grown: set<object>)
    requires g == null ==> from == {}
    ensures children.Keys == from && fresh(grown)
    ensures forall k | k in children ::
      && children[k].Valid() && children[k].graph == g
      && children[k].Repr == {children[k]} && children[k] in grown
      && children[k].View() == Root(children[k].Source(), [k])
    ensures forall k, k' | k in children && k' in children && k != k' :: children[k] != children[k']
  {
    children := map[];
    grown := {};
    var todo := from;
    while todo != {}
      invariant todo <= from
      invariant children.Keys == from - todo
      invariant forall k | k in children ::
        && children[k].Valid() && children[k].graph == g
        && children[k].Repr == {children[k]} && children[k] in grown
        && children[k].View() == Root(children[k].Source(), [k])
      invariant forall k, k' | k in children && k' in children && k != k' :: children[k] != children[k']
      invariant fresh(grown)
      decreases todo
    {
      var k :| k in todo;
      var child := new Query.NewQuery(g, [k]);
      children := children[k := child];
      grown := grown + {child};
      todo := todo - {k};
    }
  }

  /** The second loop of DeepFilter's lowest level: deletes every
      discarded key from the working set and from the children. */
  method Removed<X>(result: set<string>, queries: map<string, X>, discard: seq<string>)
    returns (kept: set<string>, rest: map<string, X>)
    ensures kept == result - set k | k in discard
    ensures rest == queries - set k | k in discard
  {
    kept := result;
    rest := queries;
    for i := 0 to |discard|
      invariant kept == result - set k | k in discard[..i]
      invariant rest == queries - set k | k in discard[..i]
    {
      assert discard[..i + 1] == discard[..i] + [discard[i]];
      kept := kept - {discard[i]};
      rest := rest - {discard[i]};
    }
    assert discard[..|discard|] == discard;
  }

  class Query<V> {
    /** The graph the query reads; null for NewEmptyQuery. */
    const graph: Graph?<V>
    var result: set<string>
    var cache: map<string, Cached<V>>
    var key: string
    var queries: map<string, Query<V>>
    ghost var Repr: set<object>

    /** Each child owns a disjoint part of the footprint and reads the same
        graph; a query without a graph has no nodes and no children. */
    ghost predicate Valid()
      reads this, Repr
      decreases Repr
    {
      && this in Repr
      && (graph != null ==> graph !in Repr)
      && (graph == null ==> result == {} && queries == map[])
      && (forall k | k in queries ::
            && queries[k] in Repr
            && queries[k].Repr <= Repr
            && this !in queries[k].Repr
            && queries[k].graph == graph
            && queries[k].Valid())
      && (forall k, k' | k in queries && k' in queries && k != k' :: queries[k].Repr !! queries[k'].Repr)
    }

    /** The query tree as a value. */
    function View(): (t: QTree<V>)
      requires Valid()
      reads this, Repr
      ensures t.result == result && t.cache == cache && t.key == key && t.queries.Keys == queries.Keys
      decreases Repr
    {
      QTree(result, cache, key, map k | k in queries :: queries[k].View())
    }

    /** The store the query reads: the graph's, or the empty one. */
    ghost function Source(): Store<V>
      reads graph
    {
      if graph == null then Store(map[], map[]) else graph.Snapshot()
    }

    /** NewQuery: the start keys that exist form the working set. Without a
        graph there can be no start keys (query.go would dereference nil). */
    constructor NewQuery(g: Graph?<V>, starts: seq<string>)
      requires g == null ==> starts == []
      ensures Valid() && Repr == {this} && graph == g
      ensures View() == Root(Source(), starts)
    {
      var found: set<string> := {};
      for i := 0 to |starts|
        invariant g != null ==> found == set k | k in starts[..i] && k in g.nodes
        invariant g == null ==> found == {}
      {
        if g.HasNode(starts[i]) {
          found := found + {starts[i]};
        }
      }
      assert starts[..|starts|] == starts;
      graph := g;
      result := found;
      cache := map[];
      key := "";
      queries := map[];
      Repr := {this};
      new;
      assert View().queries == map[];
    }

    /** NewEmptyQuery: no graph, no nodes. */
    constructor NewEmptyQuery()
      ensures Valid() && fresh(Repr) && graph == null
      ensures View() == QTree({}, map[], "", map[])
    {
      graph := null;
      result := {};
      cache := map[];
      key := "";
      queries := map[];
      Repr := {this};
      new;
      assert View().queries == map[];
    }

    /** IsDeep. */
    predicate IsDeep()
      requires Valid()
      reads this, Repr
      ensures IsDeep() <==> View().Deep()
    {
      queries != map[]
    }

    /** After an operation on child `k` alone (which may have grown that
        child's footprint with new objects, now added to `Repr`), the query
        is still valid and every other child is as it was. */
    twostate lemma ChildUpdated(k: string)
      requires old(Valid()) && k in old(queries)
      requires queries == old(queries) && result == old(result) && cache == old(cache) && key == old(key)
      requires Repr == old(Repr) + queries[k].Repr
      requires queries[k].Valid()
      requires old(queries[k].Repr) <= queries[k].Repr
      requires forall o | o in queries[k].Repr && o !in old(queries[k].Repr) :: fresh(o)
      requires unchanged(old(Repr) - old(queries[k].Repr) - {this})
      ensures Valid()
      ensures forall j | j in queries && j != k ::
        queries[j].Repr == old(queries[j].Repr) && queries[j].View() == old(queries[j].View())
    {
      forall j | j in queries && j != k
        ensures queries[j].Repr == old(queries[j].Repr) && queries[j].Valid()
        ensures queries[j].View() == old(queries[j].View())
      {
        assert old(queries[j].Repr) !! old(queries[k].Repr);
        assert this !in old(queries[j].Repr);
      }
    }

    /** Dropping children, and keys from the working set, keeps the query
        valid and leaves the remaining children as they were. */
    twostate lemma Shrunk()
      requires old(Valid()) && Repr == old(Repr) && unchanged(Repr - {this})
      requires result <= old(result)
      requires forall k | k in queries :: k in old(queries) && queries[k] == old(queries[k])
      ensures Valid()
      ensures forall k | k in queries :: queries[k].View() == old(queries[k].View())
    {
    }

    /** IsDoubleDeep: asks one child, picked arbitrarily, whether it is deep. */
    method IsDoubleDeep() returns (r: bool)
      requires Valid()
      ensures Valid() && View() == old(View())
      ensures r ==> SomeChildDeep(View())
      ensures !r ==> !View().Deep() || SomeChildFlat(View())
    {
      if !IsDeep() {
        return false;
      }
      var k :| k in queries;
      r := queries[k].IsDeep();
      assert View().queries[k] == queries[k].View();
    }

    /** Out. */
    method Out(lbl: string)
      requires Valid()
      modifies Repr
      ensures Valid() && Repr == old(Repr)
      ensures View() == TraverseTree(old(View()), Source(), Outgoing, lbl)
    {
      Walk(Outgoing, lbl);
    }

    /** In. */
    method In(lbl: string)
      requires Valid()
      modifies Repr
      ensures Valid() && Repr == old(Repr)
      ensures View() == TraverseTree(old(View()), Source(), Incoming, lbl)
    {
      Walk(Incoming, lbl);
    }

    /** The common body of Out and In. */
    method Walk(dir: Direction, lbl: string)
      requires Valid()
      modifies Repr
      ensures Valid() && Repr == old(Repr)
      ensures View() == TraverseTree(old(View()), Source(), dir, lbl)
      decreases Repr, 2
    {
      if IsDeep() {
        ghost var t := View();
        Forward(Traverse(dir, lbl));
        TraverseOnChildren(Source(), t, View(), dir, lbl);
      } else {
        var next: set<string> := {};
        if graph != null {
          next := Neighbours(graph, result, dir, lbl);
        }
        result := next;
        assert View().queries == map[];
      }
    }

    /** FilterNodes. */
    method FilterNodes(pred: map<string, V> -> bool)
      requires Valid()
      modifies Repr
      ensures Valid() && Repr == old(Repr)
      ensures View() == FilterTree(old(View()), Source(), pred)
      decreases Repr, 2
    {
      if IsDeep() {
        ghost var t := View();
        Forward(FilterBy(pred));
        FilterOnChildren(Source(), t, View(), pred);
      } else {
        var kept: set<string> := {};
        if graph != null {
          kept := Select(graph, result, pred);
        }
        result := kept;
        assert View().queries == map[];
      }
    }

    /** Get. */
    method Get(name: string, keys: seq<string>)
      requires Valid()
      modifies Repr
      ensures Valid() && Repr == old(Repr)
      ensures View() == GetTree(old(View()), Source(), name, keys)
      decreases Repr, 2
    {
      if IsDeep() {
        ghost var t := View();
        Forward(GetAll(name, keys));
        GetOnChildren(Source(), t, View(), name, keys);
      } else {
        var out: map<string, map<string, V>> := map[];
        if graph != null {
          out := ProjectAll(graph, result, keys);
        }
        assert out == map k | k in result :: Projection(Source(), k, keys);
        cache := cache[name := PerNode(out)];
        assert View().queries == map[];
      }
    }

    /** GetOne. */
    method GetOne(name: string, keys: seq<string>)
      requires Valid()
      modifies Repr
      ensures Valid() && Repr == old(Repr)
      ensures View() == GetOneTree(old(View()), Source(), name, keys)
      decreases Repr, 2
    {
      if IsDeep() {
        ghost var t := View();
        Forward(GetSingle(name, keys));
        GetOneOnChildren(Source(), t, View(), name, keys);
      } else {
        GetOneOnFlat(View(), Source(), name, keys);
        if |result| != 1 {
          return;
        }
        var k :| k in result;
        OnlyMember(result, k);
        var props: map<string, V> := map[];
        if graph != null && graph.HasNode(k) {
          props := graph.nodes[k].props;
        }
        var out := ProjectProps(props, keys);
        assert out == Projection(Source(), k, keys);
        cache := cache[name := Single(out)];
        assert View().queries == map[];
      }
    }

    /** Deepen. */
    method Deepen(name: string)
      requires Valid()
      modifies Repr
      ensures Valid() && old(Repr) <= Repr && fresh(Repr - old(Repr))
      ensures View() == DeepenTree(old(View()), Source(), name)
      decreases Repr, 2
    {
      if IsDeep() {
        ghost var t := View();
        DeepenChildren(name);
        DeepenOnChildren(Source(), t, View(), name);
      } else {
        Branch(name);
      }
    }

    /** Deepen on a flat query: one new flat child query per working-set
        node, rooted at that node. */
    method Branch(name: string)
      requires Valid() && !IsDeep()
      modifies this
      ensures Valid() && old(Repr) <= Repr && fresh(Repr - old(Repr))
      ensures View() == DeepenTree(old(View()), Source(), name)
    {
      var children, grown := NewChildren(graph, result);
      key := name;
      queries := children;
      Repr := Repr + grown;
      SameEntries(View().queries, DeepenTree(old(View()), Source(), name).queries);
    }

    /** Flatten. */
    method Flatten(save: bool)
      requires Valid()
      modifies Repr
      ensures Valid() && Repr == old(Repr)
      ensures Flattened(old(View()), save, View())
      decreases Repr, 2
    {
      if !IsDeep() {
        return;
      }
      ghost var t := View();
      var doubleDeep := IsDoubleDeep();
      if doubleDeep {
        Forward(FlattenBy(save));
        FlattenOnChildren(Source(), t, View(), save);
      } else {
        CollapseLevel(save);
        CollapseApplies(t, save);
      }
    }

    /** The level before the lowest of Flatten: optionally file the
        children's caches under the key, then drop the key and the children. */
    method CollapseLevel(save: bool)
      requires Valid() && IsDeep()
      modifies this
      ensures Valid() && Repr == old(Repr)
      ensures View() == Collapse(old(View()), save)
    {
      ghost var t := View();
      var filed := cache;
      if save {
        var branches := ChildCaches();
        filed := cache[key := Branches(branches)];
      }
      Reset(result, filed, "", map[]);
      assert View().queries == map[];
    }

    /** Replaces this level's fields in one go, keeping only some of the
        working set and some of the children (unchanged). */
    method Reset(newResult: set<string>, newCache: map<string, Cached<V>>, newKey: string,
                 newQueries: map<string, Query<V>>)
      requires Valid() && newResult <= result
      requires forall k | k in newQueries :: k in queries && newQueries[k] == queries[k]
      modifies this
      ensures Valid() && Repr == old(Repr)
      ensures View() == QTree(newResult, newCache, newKey, map k | k in newQueries :: old(View()).queries[k])
    {
      result := newResult;
      cache := newCache;
      key := newKey;
      queries := newQueries;
      Shrunk();
      SameEntries(View().queries, map k | k in newQueries :: old(View()).queries[k]);
    }

    /** The cache loop of Flatten's lowest level: each child's cache, under
        the child's key. */
    method ChildCaches() returns (branches: map<string, map<string, Cached<V>>>)
      requires Valid()
      ensures Valid() && View() == old(View())
      ensures branches == map k | k in View().queries :: View().queries[k].cache
    {
      branches := map[];
      var todo := queries.Keys;
      while todo != {}
        invariant todo <= queries.Keys
        invariant branches.Keys == queries.Keys - todo
        invariant forall k | k in branches :: branches[k] == queries[k].cache
        decreases todo
      {
        var k :| k in todo;
        branches := branches[k := queries[k].cache];
        todo := todo - {k};
      }
      SameEntries(branches, map k | k in View().queries :: View().queries[k].cache);
    }

    /** DeepFilter: `keep` sees each child's query tree. */
    method DeepFilter(keep: QTree<V> -> bool)
      requires Valid()
      modifies Repr
      ensures Valid() && Repr == old(Repr)
      ensures DeepFiltered(old(View()), keep, View())
      decreases Repr, 2
    {
      if !IsDeep() {
        return;
      }
      ghost var t := View();
      var doubleDeep := IsDoubleDeep();
      if doubleDeep {
        Forward(DeepFilterBy(keep));
        DeepFilterOnChildren(Source(), t, View(), keep);
      } else {
        PruneLevel(keep);
        PruneApplies(t, keep);
      }
    }

    /** The level before the lowest of DeepFilter: collect the children
        `keep` rejects, then remove each from the children and the working set. */
    method PruneLevel(keep: QTree<V> -> bool)
      requires Valid() && IsDeep()
      modifies this
      ensures Valid() && Repr == old(Repr)
      ensures View() == Prune(old(View()), keep)
    {
      ghost var t := View();
      var discard := Rejected(keep);
      var kept, rest := Removed(result, queries, discard);
      assert View() == t;
      Reset(kept, cache, key, rest);
      PrunedByRemoval(t, keep, discard, kept, rest.Keys);
    }

    /** The first loop of DeepFilter's lowest level: the keys of the children
        that `keep` rejects. */
    method Rejected(keep: QTree<V> -> bool) returns (discard: seq<string>)
      requires Valid()
      ensures Valid() && View() == old(View())
      ensures forall k :: k in discard <==> k in View().queries && !keep(View().queries[k])
    {
      discard := [];
      var todo := queries.Keys;
      while todo != {}
        invariant todo <= queries.Keys
        invariant forall k :: k in discard <==> k in queries && k !in todo && !keep(queries[k].View())
        decreases todo
      {
        var k :| k in todo;
        if !keep(queries[k].View()) {
          discard := discard + [k];
        }
        todo := todo - {k};
      }
    }

    /** Whether any child is deep: the test IsDoubleDeep evidently means,
        asked of every child instead of an arbitrary one. */
    method HasDeepChild() returns (r: bool)
      requires Valid()
      ensures Valid() && View() == old(View())
      ensures r <==> SomeChildDeep(View())
    {
      r := false;
      var todo := queries.Keys;
      while todo != {}
        invariant todo <= queries.Keys
        invariant r <==> exists k :: k in queries && k !in todo && queries[k].View().Deep()
        decreases todo
      {
        var k :| k in todo;
        var deep := queries[k].IsDeep();
        r := r || deep;
        todo := todo - {k};
      }
      assert forall k | k in queries :: View().queries[k] == queries[k].View();
    }

    /** Flatten with the depth test corrected: collapse only the level whose
        children are all flat, forwarding whenever any child is deep. */
    method FlattenDeepest(save: bool)
      requires Valid()
      modifies Repr
      ensures Valid() && Repr == old(Repr)
      ensures View() == Traversal.FlattenDeepest(old(View()), save)
      decreases Repr, 2
    {
      if !IsDeep() {
        return;
      }
      ghost var t := View();
      var deep := HasDeepChild();
      if deep {
        Forward(FlattenDeepestBy(save));
        FlattenDeepestOnChildren(Source(), t, View(), save);
      } else {
        CollapseLevel(save);
      }
    }

    /** DeepFilter with the depth test corrected. */
    method DeepFilterDeepest(keep: QTree<V> -> bool)
      requires Valid()
      modifies Repr
      ensures Valid() && Repr == old(Repr)
      ensures View() == Traversal.DeepFilterDeepest(old(View()), keep)
      decreases Repr, 2
    {
      if !IsDeep() {
        return;
      }
      ghost var t := View();
      var deep := HasDeepChild();
      if deep {
        Forward(DeepFilterDeepestBy(keep));
        DeepFilterDeepestOnChildren(Source(), t, View(), keep);
      } else {
        PruneLevel(keep);
      }
    }

    /** Runs the method that implements `op`. */
    method Apply(op: Op<V>)
      requires Valid()
      modifies Repr
      ensures Valid() && old(Repr) <= Repr && fresh(Repr - old(Repr))
      ensures !op.DeepenBy? ==> Repr == old(Repr)
      ensures Applied(op, Source(), old(View()), View())
      decreases Repr, 3
    {
      match op
      case Traverse(dir, lbl) => Walk(dir, lbl);
      case FilterBy(pred) => FilterNodes(pred);
      case GetAll(name, keys) => Get(name, keys);
      case GetSingle(name, keys) => GetOne(name, keys);
      case DeepenBy(name) => Deepen(name);
      case FlattenBy(save) => Flatten(save);
      case DeepFilterBy(keep) => DeepFilter(keep);
      case FlattenDeepestBy(save) => FlattenDeepest(save);
      case DeepFilterDeepestBy(keep) => DeepFilterDeepest(keep);
    }

    /** The forwarding loop of Deepen on a deep query: deepen each child in
        turn, taking the new grandchildren into the footprint. */
    method DeepenChildren(name: string)
      requires Valid() && IsDeep()
      modifies Repr
      ensures Valid() && old(Repr) <= Repr && fresh(Repr - old(Repr))
      ensures SameLevel(old(View()), View())
      ensures forall k | k in old(View()).queries :: Applied(DeepenBy(name), Source(), old(View()).queries[k], View().queries[k])
      decreases Repr, 1
    {
      ghost var s := Source();
      ghost var before := View().queries;
      ghost var repr0 := Repr;
      var todo := queries.Keys;
      while todo != {}
        invariant todo <= queries.Keys
        invariant Valid() && repr0 <= Repr && Source() == s
        invariant forall o | o in Repr && o !in repr0 :: fresh(o)
        invariant queries == old(queries) && result == old(result) && cache == old(cache) && key == old(key)
        invariant forall k | k in todo :: queries[k].Repr < repr0
        invariant forall k | k in queries ::
          if k in todo then queries[k].View() == before[k] else Applied(DeepenBy(name), s, before[k], queries[k].View())
        decreases todo
      {
        var k :| k in todo;
        DeepenChild(k, name, todo, before, s, repr0);
        todo := todo - {k};
      }
      assert forall k | k in queries :: View().queries[k] == queries[k].View();
    }

    /** One step of DeepenChildren: deepen child `k`. */
    method DeepenChild(k: string, name: string, ghost todo: set<string>, ghost before: map<string, QTree<V>>,
                       ghost s: Store<V>, ghost bound: set<object>)
      requires Valid() && k in todo && todo <= queries.Keys && Source() == s
      requires forall j | j in todo :: queries[j].Repr < bound
      requires before.Keys == queries.Keys
      requires forall j | j in queries ::
        if j in todo then queries[j].View() == before[j] else Applied(DeepenBy(name), s, before[j], queries[j].View())
      modifies Repr
      ensures Valid() && old(Repr) <= Repr && Source() == s
      ensures forall o | o in Repr && o !in old(Repr) :: fresh(o)
      ensures queries == old(queries) && result == old(result) && cache == old(cache) && key == old(key)
      ensures forall j | j in todo - {k} :: queries[j].Repr < bound
      ensures forall j | j in queries ::
        if j in todo - {k} then queries[j].View() == before[j] else Applied(DeepenBy(name), s, before[j], queries[j].View())
      decreases bound, 0
    {
      queries[k].Deepen(name);
      Repr := Repr + queries[k].Repr;
      ChildUpdated(k);
      forall j | j in queries
        ensures if j in todo - {k} then queries[j].View() == before[j]
                else Applied(DeepenBy(name), s, before[j], queries[j].View())
      {
        if j != k {
          assert queries[j].View() == old(queries[j].View());
        }
      }
    }

    /** The forwarding loop every other operation runs on a deep query: apply
        `op` to each child in turn; this level itself is left as it was. */
    method Forward(op: Op<V>)
      requires Valid() && IsDeep() && !op.DeepenBy?
      modifies Repr
      ensures Valid() && Repr == old(Repr)
      ensures SameLevel(old(View()), View())
      ensures forall k | k in old(View()).queries :: Applied(op, Source(), old(View()).queries[k], View().queries[k])
      decreases Repr, 1
    {
      ghost var s := Source();
      ghost var before := View().queries;
      var todo := queries.Keys;
      while todo != {}
        invariant todo <= queries.Keys
        invariant Valid() && Repr == old(Repr) && Source() == s
        invariant queries == old(queries) && result == old(result) && cache == old(cache) && key == old(key)
        invariant forall k | k in queries ::
          if k in todo then queries[k].View() == before[k] else Applied(op, s, before[k], queries[k].View())
        decreases todo
      {
        var k :| k in todo;
        ForwardTo(k, op, todo, before, s);
        todo := todo - {k};
      }
      assert forall k | k in queries :: View().queries[k] == queries[k].View();
    }

    /** One step of Forward: apply `op` to child `k`. */
    method ForwardTo(k: string, op: Op<V>, ghost todo: set<string>, ghost before: map<string, QTree<V>>,
                     ghost s: Store<V>)
      requires Valid() && k in todo && todo <= queries.Keys && Source() == s && !op.DeepenBy?
      requires before.Keys == queries.Keys
      requires forall j | j in queries ::
        if j in todo then queries[j].View() == before[j] else Applied(op, s, before[j], queries[j].View())
      modifies Repr
      ensures Valid() && Repr == old(Repr) && Source() == s
      ensures queries == old(queries) && result == old(result) && cache == old(cache) && key == old(key)
      ensures forall j | j in queries ::
        if j in todo - {k} then queries[j].View() == before[j] else Applied(op, s, before[j], queries[j].View())
      decreases Repr, 0
    {
      queries[k].Apply(op);
      ChildUpdated(k);
    }
  }
}
