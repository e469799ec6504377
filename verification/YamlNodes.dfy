/**
 * The check of a parsed YAML document's node graph, whose aliases may share nodes and even close cycles: the memoised
 * walk measures the fully expanded tree without building it.
 */
module YamlNodes {
  import opened Outcomes
  import opened Powers
  import opened Sequences

  type Id = int
  type Scalar = int

  // a mapping's key: the merge key <<, a scalar by its value, or a mapping or list, which is left to construction
  datatype Key = Merge | Plain(value: Scalar) | Composite

  datatype Node = Leaf | Listing(items: seq<Id>) | Mapping(entries: seq<(Key, Id)>)

  type Graph = map<Id, Node>

  const MAX_DEPTH: nat := 64
  const MAX_VALUES: nat := 100_000

  datatype Refusal = Cycle | TooDeep | TooBig | DuplicateKey

  /** The value nodes inside a node, or None for a mapping that repeats a key. */
  function Children(node: Node): Option<seq<Id>> {
    match node
    case Leaf => Some([])
    case Listing(items) => Some(items)
    case Mapping(entries) => if RepeatsKey(entries) then None else Some(Values(entries))
  }

  predicate RepeatsKey(entries: seq<(Key, Id)>) {
    exists i, j | 0 <= i < j < |entries| :: HasKey(entries[i]) && entries[i].0 == entries[j].0
  }

  // a mapping or list as a key is left out with its value
  predicate HasKey(entry: (Key, Id)) {
    !entry.0.Composite?
  }

  function Values(entries: seq<(Key, Id)>): (values: seq<Id>)
    ensures |values| == |Filter(entries, HasKey)|
    ensures forall k | 0 <= k < |values| :: values[k] == Filter(entries, HasKey)[k].1
  {
    var kept := Filter(entries, HasKey);
    seq(|kept|, k requires 0 <= k < |kept| => kept[k].1)
  }

  // every node inside a node is a node of the graph
  ghost predicate Closed(g: Graph) {
    forall id, child | id in g && Children(g[id]).Some? && child in Children(g[id]).value :: child in g
  }

  // ----- the fully expanded tree

  datatype Tree = Tree(children: seq<Tree>)

  ghost predicate Expands(g: Graph, id: Id, t: Tree)
    decreases t
  {
    && id in g && Children(g[id]).Some?
    && var kids := Children(g[id]).value;
    && |kids| == |t.children|
    && forall i | 0 <= i < |kids| :: Expands(g, kids[i], t.children[i])
  }

  ghost function Height(t: Tree): nat
    decreases t
  {
    Heights(t.children)
  }

  ghost function Heights(ts: seq<Tree>): nat
    decreases ts
  {
    if ts == [] then 0
    else Max(Heights(ts[..|ts| - 1]), 1 + Height(ts[|ts| - 1]))
  }

  ghost function Size(t: Tree): nat
    decreases t
  {
    1 + Sizes(t.children)
  }

  ghost function Sizes(ts: seq<Tree>): nat
    decreases ts
  {
    if ts == [] then 0 else Sizes(ts[..|ts| - 1]) + Size(ts[|ts| - 1])
  }

  lemma {:induction false} PrefixMeasures(ts: seq<Tree>, n: nat)
    requires n <= |ts|
    ensures Heights(ts[..n]) <= Heights(ts) && Sizes(ts[..n]) <= Sizes(ts)
    ensures n < |ts| ==> 1 + Height(ts[n]) <= Heights(ts) && Size(ts[n]) <= Sizes(ts)
    decreases |ts|
  {
    hide Height, Size;
    if n < |ts| {
      var shorter := ts[..|ts| - 1];
      PrefixMeasures(shorter, n);
      assert shorter[..n] == ts[..n];
    } else {
      assert ts[..n] == ts;
    }
  }

  lemma {:induction false} ExpansionUnique(g: Graph, id: Id, t: Tree, u: Tree)
    requires Expands(g, id, t) && Expands(g, id, u)
    ensures t == u
    decreases t
  {
    forall i | 0 <= i < |t.children|
      ensures t.children[i] == u.children[i]
    {
      ExpansionUnique(g, Children(g[id]).value[i], t.children[i], u.children[i]);
    }
    assert t.children == u.children;
  }

  // ----- the walk

  ghost predicate Measures(g: Graph, id: Id, measure: (nat, nat)) {
    exists t :: Expands(g, id, t) && measure == (Height(t), Size(t)) && Size(t) <= MAX_VALUES
  }

  // a node's expansion fits at this depth
  ghost predicate Fits(g: Graph, id: Id, depth: nat, t: Tree) {
    Expands(g, id, t) && depth + Height(t) <= MAX_DEPTH && Size(t) <= MAX_VALUES
  }

  // the enclosing nodes all expand to taller trees
  ghost predicate UnderTaller(g: Graph, above: set<Id>, height: nat) {
    forall a | a in above :: exists t :: Expands(g, a, t) && Height(t) > height
  }

  lemma NotUnderItself(g: Graph, id: Id, above: set<Id>, t: Tree)
    requires Expands(g, id, t) && UnderTaller(g, above, Height(t))
    ensures id !in above
  {
    hide Height;
    if id in above {
      var u :| Expands(g, id, u) && Height(u) > Height(t);
      ExpansionUnique(g, id, t, u);
    }
  }

  lemma MeasureIs(g: Graph, id: Id, measure: (nat, nat), t: Tree)
    requires Measures(g, id, measure) && Expands(g, id, t)
    ensures measure == (Height(t), Size(t))
  {
    hide Height, Size;
    var u :| Expands(g, id, u) && measure == (Height(u), Size(u)) && Size(u) <= MAX_VALUES;
    ExpansionUnique(g, id, t, u);
  }

  lemma ChildFits(g: Graph, id: Id, depth: nat, above: set<Id>, t: Tree, i: nat)
    requires Fits(g, id, depth, t) && UnderTaller(g, above, Height(t)) && i < |t.children|
    ensures Fits(g, Children(g[id]).value[i], depth + 1, t.children[i])
    ensures UnderTaller(g, above + {id}, Height(t.children[i]))
  {
    PrefixMeasures(t.children, i);
    assert Height(t) == Heights(t.children) && Size(t) == 1 + Sizes(t.children);
    hide Height, Size, Children;
  }

  // the measures of the first i children, as the loop adds them up
  lemma OneMoreChild(trees: seq<Tree>, tree: Tree)
    ensures Heights(trees + [tree]) == Max(Heights(trees), 1 + Height(tree))
    ensures Sizes(trees + [tree]) == Sizes(trees) + Size(tree)
  {
    hide Height, Size;
    assert (trees + [tree])[..|trees|] == trees;
  }

  lemma NodeMeasured(g: Graph, id: Id, trees: seq<Tree>)
    requires id in g && Children(g[id]).Some? && |Children(g[id]).value| == |trees|
    requires forall k | 0 <= k < |trees| :: Expands(g, Children(g[id]).value[k], trees[k])
    requires 1 + Sizes(trees) <= MAX_VALUES
    ensures Measures(g, id, (Heights(trees), 1 + Sizes(trees)))
  {
    var t := Tree(trees);
    assert Height(t) == Heights(trees) && Size(t) == 1 + Sizes(trees);
    hide Height, Size, Children;
    assert Expands(g, id, t);
  }

  class NodeChecker {
    const graph: Graph
    var measured: map<Id, (nat, nat)>
    ghost var listed: seq<Id>

    constructor (graph: Graph)
      ensures this.graph == graph && measured == map[] && listed == []
    {
      this.graph := graph;
      measured := map[];
      listed := [];
    }

    ghost predicate Valid()
      reads this
    {
      && Closed(graph)
      && (forall id | id in measured :: Measures(graph, id, measured[id]))
      && (forall i, j | 0 <= i < j < |listed| :: listed[i] != listed[j])
    }

    // the nodes whose children were listed are measured, or enclose the node being checked
    ghost predicate Listed(above: set<Id>)
      reads this
    {
      forall id | id in listed :: id in measured || id in above
    }

    /**
     * Checks a node at a depth, under the nodes that enclose it. Accepting, it returns the height and expanded size
     * of the node's fully expanded tree, which exists and fits; and it accepts whenever a tree that fits exists
     * (`hope`, when the caller knows one). Whatever the graph, the walk goes no deeper than one past the limit.
     */
    method Check(node: Id, depth: nat, above: set<Id>, ghost hope: Option<Tree>)
      returns (result: Result<(nat, nat), Refusal>)
      requires Valid() && Listed(above) && node in graph && |above| == depth <= MAX_DEPTH + 1
      requires hope.Some? ==>
        Fits(graph, node, depth, hope.value) && UnderTaller(graph, above, Height(hope.value))
      modifies this
      ensures Valid()
      ensures result.Ok? ==> Listed(above)
      ensures result.Ok? ==> Measures(graph, node, result.value) && depth + result.value.0 <= MAX_DEPTH
      ensures hope.Some? ==> result.Ok?
      decreases graph.Keys - above
    {
      hide Height, Size, Children, Expands, UnderTaller;
      if hope.Some? {
        NotUnderItself(graph, node, above, hope.value);
        HopeChildren(graph, node, depth, hope.value);
      }
      if node in above {
        return Err(Cycle);
      }
      if depth > MAX_DEPTH {
        return Err(TooDeep);
      }
      if node !in measured {
        var kids := Children(graph[node]);
        if kids.None? {
          return Err(DuplicateKey);
        }
        listed := listed + [node];
        var measure := Measure(node, kids.value, depth, above, hope);
        if measure.Err? {
          return measure;
        }
        measured := measured[node := measure.value];
      }
      if hope.Some? {
        MeasureIs(graph, node, measured[node], hope.value);
      }
      if depth + measured[node].0 > MAX_DEPTH {
        return Err(TooDeep);
      }
      return Ok(measured[node]);
    }

    // the loop over a node's children
    method Measure(node: Id, kids: seq<Id>, depth: nat, above: set<Id>, ghost hope: Option<Tree>)
      returns (result: Result<(nat, nat), Refusal>)
      requires Valid() && Listed(above + {node}) && node in graph && node !in above && |above| == depth <= MAX_DEPTH
      requires Children(graph[node]) == Some(kids)
      requires hope.Some? ==>
        Fits(graph, node, depth, hope.value) && UnderTaller(graph, above, Height(hope.value))
      modifies this
      ensures Valid()
      ensures result.Ok? ==> Listed(above + {node}) && Measures(graph, node, result.value)
      ensures hope.Some? ==> result.Ok?
      decreases graph.Keys - above, 0
    {
      hide Height, Size, Children, Expands, UnderTaller, Heights, Sizes;
      var inner := above + {node};
      var height, size := 0, 1;
      ghost var trees: seq<Tree> := [];
      NoChildren();
      if hope.Some? {
        HopeChildren(graph, node, depth, hope.value);
      }
      for i := 0 to |kids|
        invariant Valid() && Listed(inner) && |trees| == i
        invariant forall k | 0 <= k < i :: Expands(graph, kids[k], trees[k])
        invariant height == Heights(trees) && size == 1 + Sizes(trees) && size <= MAX_VALUES
        invariant hope.Some? ==> trees == hope.value.children[..i]
      {
        assert kids[i] in kids;
        ghost var childHope := if hope.Some? then Some(hope.value.children[i]) else None;
        if hope.Some? {
          ChildFits(graph, node, depth, above, hope.value, i);
          PrefixMeasures(hope.value.children, i + 1);
        }
        var child := Check(kids[i], depth + 1, inner, childHope);
        if child.Err? {
          return child;
        }
        ghost var tree := MeasuredTree(graph, kids[i], child.value, childHope);
        OneMoreChild(trees, tree);
        height, size := Max(height, 1 + child.value.0), size + child.value.1;
        trees := trees + [tree];
        assert hope.Some? ==> trees == hope.value.children[..i + 1];
        if size > MAX_VALUES {
          return Err(TooBig);
        }
      }
      NodeMeasured(graph, node, trees);
      return Ok((height, size));
    }
  }

  lemma NoChildren()
    ensures Heights([]) == 0 && Sizes([]) == 0
  {
  }

  lemma HopeChildren(g: Graph, id: Id, depth: nat, t: Tree)
    requires Fits(g, id, depth, t)
    ensures Children(g[id]).Some?
    ensures |t.children| == |Children(g[id]).value| && 1 + Sizes(t.children) <= MAX_VALUES
  {
  }

  lemma MeasuredTree(g: Graph, id: Id, measure: (nat, nat), hope: Option<Tree>) returns (t: Tree)
    requires Measures(g, id, measure)
    requires hope.Some? ==> Expands(g, id, hope.value)
    ensures Expands(g, id, t) && measure == (Height(t), Size(t))
    ensures hope.Some? ==> t == hope.value
  {
    hide Height, Size;
    t :| Expands(g, id, t) && measure == (Height(t), Size(t)) && Size(t) <= MAX_VALUES;
    if hope.Some? {
      ExpansionUnique(g, id, t, hope.value);
    }
  }

  /**
   * The check accepts a document exactly when its graph unfolds into a finite tree, no mapping in it repeating a
   * key, of height at most 64 and size at most 100000; it lists the children of each node at most once.
   */
  method CheckDocument(graph: Graph, root: Id) returns (result: Result<(nat, nat), Refusal>, ghost listed: seq<Id>)
    requires Closed(graph) && root in graph
    ensures result.Ok? <==> exists t :: Fits(graph, root, 0, t)
    ensures forall t | Fits(graph, root, 0, t) :: result == Ok((Height(t), Size(t)))
    ensures forall i, j | 0 <= i < j < |listed| :: listed[i] != listed[j]
  {
    hide Height, Size, Children, Expands;
    var checker := new NodeChecker(graph);
    ghost var hope: Option<Tree> := None;
    if exists t :: Fits(graph, root, 0, t) {
      var t :| Fits(graph, root, 0, t);
      hope := Some(t);
    }
    result := checker.Check(root, 0, {}, hope);
    listed := checker.listed;
    if result.Ok? {
      ghost var t := MeasuredTree(graph, root, result.value, hope);
      MeasureFits(graph, root, result.value, t);
      forall u | Fits(graph, root, 0, u)
        ensures u == t
      {
        ExpansionUnique(graph, root, t, u);
      }
    }
  }

  lemma MeasureFits(g: Graph, id: Id, measure: (nat, nat), t: Tree)
    requires Measures(g, id, measure) && measure.0 <= MAX_DEPTH && Expands(g, id, t)
    ensures Fits(g, id, 0, t)
  {
    hide Height, Size;
    MeasureIs(g, id, measure, t);
    var u :| Expands(g, id, u) && measure == (Height(u), Size(u)) && Size(u) <= MAX_VALUES;
  }

  // ----- which nodes a node holds

  // the tree's children are, one for one, expansions of the nodes at the places
  ghost predicate ExpandsAt(g: Graph, entries: seq<(Key, Id)>, places: seq<nat>, ts: seq<Tree>) {
    && |places| == |ts|
    && forall k | 0 <= k < |ts| :: places[k] < |entries| && Expands(g, entries[places[k]].1, ts[k])
  }

  ghost predicate EqualKeys(entries: seq<(Key, Id)>, i: nat, j: nat) {
    i < j < |entries| && !entries[i].0.Composite? && entries[i].0 == entries[j].0
  }

  // the places of a mapping's values, in order: those of its entries but the composite keys'
  ghost predicate ValuePlaces(entries: seq<(Key, Id)>, places: seq<nat>) {
    && (forall k | 0 <= k < |places| :: places[k] < |entries| && !entries[places[k]].0.Composite?)
    && (forall j, k | 0 <= j < k < |places| :: places[j] < places[k])
    && (forall i {:trigger i in places} | 0 <= i < |entries| && !entries[i].0.Composite? :: i in places)
  }

  /**
   * A mapping expands exactly when it repeats no key, into the expansions of its values in order, those of composite
   * keys left out.
   */
  lemma MappingExpands(g: Graph, id: Id, entries: seq<(Key, Id)>, t: Tree)
    requires id in g && g[id] == Mapping(entries)
    ensures Expands(g, id, t)
       <==> (forall i, j :: !EqualKeys(entries, i, j))
            && exists places :: ValuePlaces(entries, places) && ExpandsAt(g, entries, places, t.children)
  {
    RepeatsExactly(entries);
    hide RepeatsKey, EqualKeys, ExpandsAt, ValuePlaces, Expands, Children;
    if exists places :: ValuePlaces(entries, places) && ExpandsAt(g, entries, places, t.children) {
      var places :| ValuePlaces(entries, places) && ExpandsAt(g, entries, places, t.children);
      ExpandsByPlaces(g, id, entries, places, t);
    }
    if Expands(g, id, t) {
      var places := PlacesExist(entries, HasKey);
      PlacesAre(entries, places);
      ExpandsByPlaces(g, id, entries, places, t);
    }
  }

  lemma RepeatsExactly(entries: seq<(Key, Id)>)
    ensures RepeatsKey(entries) <==> exists i, j :: EqualKeys(entries, i, j)
  {
    if RepeatsKey(entries) {
      var i, j :| 0 <= i < j < |entries| && HasKey(entries[i]) && entries[i].0 == entries[j].0;
      assert EqualKeys(entries, i, j);
    }
    if i: nat, j: nat :| EqualKeys(entries, i, j) {
      assert HasKey(entries[i]) && entries[i].0 == entries[j].0;
    }
  }

  lemma PlacesAre(entries: seq<(Key, Id)>, places: seq<nat>)
    ensures ValuePlaces(entries, places) <==> Places(entries, HasKey, places)
  {
  }

  lemma ExpandsByPlaces(g: Graph, id: Id, entries: seq<(Key, Id)>, places: seq<nat>, t: Tree)
    requires id in g && g[id] == Mapping(entries) && ValuePlaces(entries, places)
    ensures Expands(g, id, t) <==> !RepeatsKey(entries) && ExpandsAt(g, entries, places, t.children)
  {
    hide RepeatsKey, Values, ValuePlaces, Places;
    PlacesAre(entries, places);
    FilterPicks(entries, HasKey, places);
  }

  /** A list expands into the expansions of its items in order, and a scalar into a tree of its own. */
  lemma OthersExpand(g: Graph, id: Id, t: Tree)
    requires id in g && !g[id].Mapping?
    ensures Expands(g, id, t) <==>
      if g[id].Leaf? then t == Tree([])
      else |t.children| == |g[id].items|
           && forall i | 0 <= i < |g[id].items| :: Expands(g, g[id].items[i], t.children[i])
  {
  }

  // the child is an item of the node, or the value of one of its entries with no composite key
  ghost predicate HoldsNode(node: Node, child: Id) {
    match node
    case Leaf => false
    case Listing(items) => child in items
    case Mapping(entries) => exists i :: 0 <= i < |entries| && !entries[i].0.Composite? && entries[i].1 == child
  }

  lemma HeldIsChild(node: Node, child: Id)
    requires HoldsNode(node, child) && Children(node).Some?
    ensures child in Children(node).value
  {
    if node.Mapping? {
      var i :| 0 <= i < |node.entries| && !node.entries[i].0.Composite? && node.entries[i].1 == child;
      var places := PlacesExist(node.entries, HasKey);
      FilterPicks(node.entries, HasKey, places);
      assert i in places;
      var k :| 0 <= k < |places| && places[k] == i;
      assert Values(node.entries)[k] == child;
    }
  }

  // ----- what the measures are of the tree

  // the way down to a node of the tree, by its places among the children
  ghost predicate Down(t: Tree, way: seq<nat>)
    decreases t
  {
    way == [] || (way[0] < |t.children| && Down(t.children[way[0]], way[1..]))
  }

  /** The height is the length of the longest way down. */
  lemma {:induction false} HeightIsLongest(t: Tree) returns (longest: seq<nat>)
    ensures Down(t, longest) && |longest| == Height(t)
    ensures forall way | Down(t, way) :: |way| <= Height(t)
    decreases t
  {
    longest := HeightsLongest(t, t.children);
    forall way | Down(t, way)
      ensures |way| <= Height(t)
    {
      if way != [] {
        PrefixMeasures(t.children, way[0]);
        var _ := HeightIsLongest(t.children[way[0]]);
        assert Down(t.children[way[0]], way[1..]);
      }
    }
  }

  lemma {:induction false} HeightsLongest(t: Tree, ts: seq<Tree>) returns (longest: seq<nat>)
    requires ts <= t.children
    ensures Down(t, longest) && |longest| == Heights(ts)
    decreases t, |ts|
  {
    hide Height;
    if ts == [] {
      longest := [];
    } else {
      var last := |ts| - 1;
      longest := HeightsLongest(t, ts[..last]);
      if 1 + Height(ts[last]) > Heights(ts[..last]) {
        var below := HeightIsLongest(t.children[last]);
        longest := [last] + below;
        assert longest[1..] == below;
      }
    }
  }

  /** The size is the number of the tree's nodes: of the ways down, each listed once. */
  lemma {:induction false} SizeCountsNodes(t: Tree) returns (ways: seq<seq<nat>>)
    ensures NoRepeats(ways) && |ways| == Size(t) && forall way :: way in ways <==> Down(t, way)
    decreases t
  {
    ways := SizesCount(t, t.children);
    assert Size(t) == 1 + Sizes(t.children);
  }

  // the node itself and the nodes under its first children
  ghost predicate DownFirst(t: Tree, n: nat, way: seq<nat>) {
    Down(t, way) && (way == [] || way[0] < n)
  }

  lemma {:induction false} SizesCount(t: Tree, ts: seq<Tree>) returns (ways: seq<seq<nat>>)
    requires ts <= t.children
    ensures NoRepeats(ways) && |ways| == 1 + Sizes(ts) && forall way :: way in ways <==> DownFirst(t, |ts|, way)
    decreases t, |ts|
  {
    hide Size;
    if ts == [] {
      ways := [[]];
    } else {
      var last := |ts| - 1;
      var before := SizesCount(t, ts[..last]);
      var below := SizeCountsNodes(t.children[last]);
      ways := before + Under(last, below);
      WaysJoin(t, last, before, below);
    }
  }

  function Under(first: nat, ways: seq<seq<nat>>): (under: seq<seq<nat>>)
    ensures |under| == |ways| && forall k | 0 <= k < |ways| :: under[k] == [first] + ways[k]
  {
    seq(|ways|, k requires 0 <= k < |ways| => [first] + ways[k])
  }

  lemma WaysJoin(t: Tree, last: nat, before: seq<seq<nat>>, below: seq<seq<nat>>)
    requires last < |t.children| && NoRepeats(before) && NoRepeats(below)
    requires forall way :: way in before <==> DownFirst(t, last, way)
    requires forall way :: way in below <==> Down(t.children[last], way)
    ensures NoRepeats(before + Under(last, below))
    ensures forall way :: way in before + Under(last, below) <==> DownFirst(t, last + 1, way)
  {
    var under := Under(last, below);
    forall k | 0 <= k < |under|
      ensures under[k] !in before && under[k][0] == last && under[k][1..] == below[k]
      ensures DownFirst(t, last + 1, under[k])
    {
      assert below[k] in below;
      assert under[k][1..] == below[k];
    }
    forall i, j | 0 <= i < j < |before + under|
      ensures (before + under)[i] != (before + under)[j]
    {
      if i < |before| <= j {
        assert (before + under)[i] in before;
      }
    }
    forall way | DownFirst(t, last + 1, way)
      ensures way in before + under
    {
      if way != [] && way[0] == last {
        assert way[1..] in below;
        var k :| 0 <= k < |below| && below[k] == way[1..];
        assert under[k] == way;
      }
    }
  }

  // ----- what refuses a finite tree

  /** A node that its own items or entries lead back to has no finite expansion. */
  lemma CycleNeverFits(g: Graph, path: seq<Id>, t: Tree)
    requires |path| >= 2 && path[0] == path[|path| - 1]
    requires forall i | 0 <= i < |path| :: path[i] in g
    requires forall i | 0 <= i < |path| - 1 :: HoldsNode(g[path[i]], path[i + 1])
    ensures !Expands(g, path[0], t)
  {
    hide Children, Height, HoldsNode;
    if Expands(g, path[0], t) {
      var u := PathLowers(g, path, t);
      ExpansionUnique(g, path[0], t, u);
    }
  }

  lemma {:induction false} PathLowers(g: Graph, path: seq<Id>, t: Tree) returns (u: Tree)
    requires |path| >= 1 && Expands(g, path[0], t)
    requires forall i | 0 <= i < |path| :: path[i] in g
    requires forall i | 0 <= i < |path| - 1 :: HoldsNode(g[path[i]], path[i + 1])
    ensures Expands(g, path[|path| - 1], u) && (|path| > 1 ==> Height(u) < Height(t))
    ensures Height(u) <= Height(t)
    decreases |path|
  {
    hide Children, Size, HoldsNode;
    if |path| == 1 {
      u := t;
    } else {
      var kids := Children(g[path[0]]).value;
      assert HoldsNode(g[path[0]], path[0 + 1]);
      HeldIsChild(g[path[0]], path[1]);
      var k :| 0 <= k < |kids| && kids[k] == path[1];
      PrefixMeasures(t.children, k);
      u := PathLowers(g, path[1..], t.children[k]);
    }
  }
}
