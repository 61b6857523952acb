/**
 * A graph or subgraph (src/phpDocumentor/GraphViz/Graph.php): a name, one
 * of three types, a strict flag, an attribute store, and insertion-ordered
 * maps of subgraphs and nodes plus a list of edges. It renders itself,
 * and its subgraphs recursively, as DOT text.
 *
 * The subgraph relation is kept a tree: `Tree` is the set of graphs below
 * and including this one, and `Repr` every object the rendering reads.
 */
module Graphs {
  import opened Results
  import opened PhpStrings
  import PhpArrays
  import opened AttributeStore
  import opened Nodes
  import opened Edges
  import DotAttribute

  /** The three graph types `setType` accepts. */
  datatype GraphType = Directed | Undirected | Sub

  function Keyword(t: GraphType): string {
    match t
    case Directed => "digraph"
    case Undirected => "graph"
    case Sub => "subgraph"
  }

  /** The type named by `s`, if `s` is one `setType` accepts. */
  function ParseGraphType(s: string): (r: Option<GraphType>)
    ensures r.Some? <==> s == "digraph" || s == "graph" || s == "subgraph"
    ensures r.Some? ==> Keyword(r.value) == s
  {
    if s == "digraph" then Some(Directed)
    else if s == "graph" then Some(Undirected)
    else if s == "subgraph" then Some(Sub)
    else None
  }

  /** `strict ` when the graph is strict, then the type keyword. */
  function Header(strict: bool, kind: GraphType): string {
    (if strict then "strict " else "") + Keyword(kind)
  }

  /**
   * The text of a graph: header, the name in quotes (not escaped), and the
   * body between braces on lines of its own.
   */
  function GraphText(strict: bool, kind: GraphType, name: string, body: string): string {
    Header(strict, kind) + " \"" + name + "\" {\n" + body + "\n}"
  }

  /** The entries `array_merge` sees for a store: rendered attribute lines under their names. */
  function AttributeEntries(s: Store): (r: PhpArrays.OrderedMap<Option<string>, string>)
    ensures |r| == |s|
    ensures forall i :: 0 <= i < |s| ==> r[i] == (PhpArrays.MergeKey(s[i].0), DotAttribute.AttributeText(s[i].0, s[i].1))
  {
    if s == [] then [] else [(PhpArrays.MergeKey(s[0].0), DotAttribute.AttributeText(s[0].0, s[0].1))] + AttributeEntries(s[1..])
  }

  /** The rendered edges, in order. */
  function EdgeTexts(edges: seq<Edge>): (r: seq<string>)
    reads edges, set i | 0 <= i < |edges| :: edges[i].from, set i | 0 <= i < |edges| :: edges[i].to
    ensures |r| == |edges|
    ensures forall i :: 0 <= i < |edges| ==> r[i] == edges[i].ToDot()
  {
    if edges == [] then [] else [edges[0].ToDot()] + EdgeTexts(edges[1..])
  }

  /** The entries `array_merge` sees for the node map: rendered nodes under their keys. */
  function NodeEntries(nodes: PhpArrays.OrderedMap<string, Node>): (r: PhpArrays.OrderedMap<Option<string>, string>)
    reads set i | 0 <= i < |nodes| :: nodes[i].1
    ensures |r| == |nodes|
    ensures forall i :: 0 <= i < |nodes| ==> r[i] == (PhpArrays.MergeKey(nodes[i].0), nodes[i].1.ToDot())
  {
    if nodes == [] then [] else [(PhpArrays.MergeKey(nodes[0].0), nodes[0].1.ToDot())] + NodeEntries(nodes[1..])
  }

  /** After `$m[$k] = $v`, `$m[$k]` is `v` and every other key reads as before. */
  lemma PutFindsEveryKey<V>(m: PhpArrays.OrderedMap<string, V>, k: string, v: V)
    requires PhpArrays.DistinctKeys(m)
    ensures PhpArrays.Get(PhpArrays.Put(m, k, v), k) == Some(v)
    ensures forall n :: n != k ==> PhpArrays.Get(PhpArrays.Put(m, k, v), n) == PhpArrays.Get(m, n)
  {
    PhpArrays.PutGetSame(m, k, v);
    forall n | n != k
      ensures PhpArrays.Get(PhpArrays.Put(m, k, v), n) == PhpArrays.Get(m, n)
    {
      PhpArrays.PutGetOther(m, k, v, n);
    }
  }

  class Graph {
    var name: string
    var kind: GraphType
    var strict: bool
    var attributes: Store
    var graphs: PhpArrays.OrderedMap<string, Graph>
    var nodes: PhpArrays.OrderedMap<string, Node>
    var edges: seq<Edge>
    ghost var Tree: set<Graph>
    ghost var Repr: set<object>

    /** The graph's own attribute names are distinct, and its subgraphs form a valid tree. */
    ghost predicate Valid()
      reads this`attributes, this`graphs, this`nodes, this`edges, this`Tree, this`Repr
      reads Tree`graphs, Tree`nodes, Tree`edges, Tree`Tree, Tree`Repr
    {
      AttributeStore.Valid(attributes) && TreeValid()
    }

    /**
     * Subgraph and node names are distinct keys; every node, edge and edge
     * endpoint is in `Repr`; every subgraph is a valid tree inside this
     * one's, not containing this graph.
     */
    ghost predicate TreeValid()
      reads this`graphs, this`nodes, this`edges, this`Tree, this`Repr
      reads Tree`graphs, Tree`nodes, Tree`edges, Tree`Tree, Tree`Repr
      decreases Tree
    {
      && this in Tree
      && PhpArrays.DistinctKeys(graphs)
      && PhpArrays.DistinctKeys(nodes)
      && (forall i :: 0 <= i < |nodes| ==> nodes[i].1 in Repr)
      && (forall i :: 0 <= i < |edges| ==> edges[i] in Repr && edges[i].from in Repr && edges[i].to in Repr)
      && (forall i :: 0 <= i < |graphs| ==>
            var c := graphs[i].1;
            c in Tree && c.Tree <= Tree && this !in c.Tree && c.Repr <= Repr && c.TreeValid())
    }

    /** `__toString`. */
    function ToDot(): string
      requires TreeValid()
      reads this, Tree, Repr
      decreases Tree, 3, 0
    {
      GraphText(strict, kind, name, Body())
    }

    /** The lines between the braces: the merged elements, rendered and joined. */
    function Body(): string
      requires TreeValid()
      reads this, Tree, Repr
      decreases Tree, 2, 0
    {
      Implode("\n", PhpArrays.Values(PhpArrays.Merge([], Elements())))
    }

    /**
     * What `array_merge($graphs, $attributes, $edges, $nodes)` is given, each
     * element already rendered (rendering changes nothing, so rendering
     * before or after the merge gives the same lines).
     */
    function Elements(): PhpArrays.OrderedMap<Option<string>, string>
      requires TreeValid()
      reads this, Tree, Repr
      decreases Tree, 1, 0
    {
      SubgraphEntries(0) + AttributeEntries(attributes) + PhpArrays.AsList(EdgeTexts(edges)) + NodeEntries(nodes)
    }

    /** The rendered subgraphs from slot `i` on, under their keys. */
    function SubgraphEntries(i: nat): (r: PhpArrays.OrderedMap<Option<string>, string>)
      requires TreeValid() && i <= |graphs|
      reads this, Tree, Repr
      decreases Tree, 0, |graphs| - i
      ensures |r| == |graphs| - i
    {
      if i == |graphs| then []
      else [(PhpArrays.MergeKey(graphs[i].0), graphs[i].1.ToDot())] + SubgraphEntries(i + 1)
    }

    /**
     * `findNode`: this graph's own node under `name` if there is one,
     * otherwise the first hit of a depth-first search through the subgraphs
     * in insertion order.
     */
    function FindNode(name: string): (r: Option<Node>)
      requires TreeValid()
      reads this, Tree
      decreases Tree, 1, 0
      ensures PhpArrays.HasKey(nodes, name) ==> r == PhpArrays.Get(nodes, name)
      ensures r.Some? ==> exists g :: g in Tree && PhpArrays.Get(g.nodes, name) == r
    {
      match PhpArrays.Get(nodes, name)
      case Some(n) => Some(n)
      case None => FindInSubgraphs(name, 0)
    }

    /** The search through the subgraphs from slot `i` on. */
    function FindInSubgraphs(name: string, i: nat): (r: Option<Node>)
      requires TreeValid() && i <= |graphs|
      reads this, Tree
      decreases Tree, 0, |graphs| - i
      ensures r.Some? ==> exists g :: g in Tree && PhpArrays.Get(g.nodes, name) == r
    {
      if i == |graphs| then None
      else
        match graphs[i].1.FindNode(name)
        case Some(n) => Some(n)
        case None => FindInSubgraphs(name, i + 1)
    }

    /** Some graph of the tree below and including this one stores a node under `name`. */
    ghost predicate Holds(name: string)
      requires TreeValid()
      reads this, Tree
      decreases Tree, 1
    {
      PhpArrays.HasKey(nodes, name) || exists i :: 0 <= i < |graphs| && graphs[i].1.Holds(name)
    }

    /** `findNode` finds a node exactly when some graph of the tree holds one under that name. */
    lemma {:induction false} FindNodeFindsIff(name: string)
      requires TreeValid()
      ensures FindNode(name).Some? <==> Holds(name)
      decreases Tree, 1
    {
      if !PhpArrays.HasKey(nodes, name) {
        FindInSubgraphsFindsIff(name, 0);
      }
    }

    lemma {:induction false} FindInSubgraphsFindsIff(name: string, i: nat)
      requires TreeValid() && i <= |graphs|
      ensures FindInSubgraphs(name, i).Some? <==> exists j :: i <= j < |graphs| && graphs[j].1.Holds(name)
      decreases Tree, 0, |graphs| - i
    {
      if i < |graphs| {
        graphs[i].1.FindNodeFindsIff(name);
        FindInSubgraphsFindsIff(name, i + 1);
      }
    }

    /**
     * The search order: without a node of its own, a graph returns what the
     * first subgraph (in insertion order) whose tree holds the name finds.
     */
    lemma FindNodeFirstHit(name: string, j: nat)
      requires TreeValid() && !PhpArrays.HasKey(nodes, name)
      requires j < |graphs| && graphs[j].1.Holds(name)
      requires forall k :: 0 <= k < j ==> !graphs[k].1.Holds(name)
      ensures FindNode(name) == graphs[j].1.FindNode(name)
    {
      FirstHitFrom(name, 0, j);
    }

    lemma {:induction false} FirstHitFrom(name: string, i: nat, j: nat)
      requires TreeValid() && i <= j < |graphs| && graphs[j].1.Holds(name)
      requires forall k :: i <= k < j ==> !graphs[k].1.Holds(name)
      ensures FindInSubgraphs(name, i) == graphs[j].1.FindNode(name)
      decreases j - i
    {
      var c := graphs[i].1;
      assert c.TreeValid();
      c.FindNodeFindsIff(name);
      if i < j {
        assert c.FindNode(name) == None;
        FirstHitFrom(name, i + 1, j);
      }
    }

    /**
     * When no string key occurs twice among the subgraphs, attributes and
     * nodes, the body is every subgraph, then every attribute line, then
     * every edge, then every node, joined by line breaks.
     */
    lemma BodyWithoutCollisions()
      requires TreeValid() && PhpArrays.DistinctStringKeys(Elements())
      ensures Body() == Implode("\n", PhpArrays.Values(SubgraphEntries(0)) + Texts(attributes) + EdgeTexts(edges) + PhpArrays.Values(NodeEntries(nodes)))
    {
      var sub := SubgraphEntries(0);
      var attrs := AttributeEntries(attributes);
      var es := PhpArrays.AsList(EdgeTexts(edges));
      var ns := NodeEntries(nodes);
      PhpArrays.MergeWithoutCollisions([], Elements());
      assert [] + Elements() == Elements();
      PhpArrays.ValuesAppend(sub + attrs + es, ns);
      PhpArrays.ValuesAppend(sub + attrs, es);
      PhpArrays.ValuesAppend(sub, attrs);
      assert PhpArrays.Values(attrs) == Texts(attributes);
      assert PhpArrays.Values(es) == EdgeTexts(edges);
    }

    /** An empty graph renders as its header, an empty line and the closing brace. */
    lemma EmptyGraphText()
      requires TreeValid() && graphs == [] && attributes == [] && edges == [] && nodes == []
      ensures ToDot() == Header(strict, kind) + " \"" + name + "\" {\n\n}"
    {
      assert Elements() == [];
      var none: PhpArrays.OrderedMap<Option<string>, string> := [];
      assert PhpArrays.Values(PhpArrays.Merge(none, none)) == [];
    }
  
    /** A new graph: named `G`, directed, not strict, and empty. */
    constructor ()
      ensures name == "G" && kind == Directed && !strict
      ensures attributes == [] && graphs == [] && nodes == [] && edges == []
      ensures Tree == {this} && Repr == {this} && Valid()
    {
      name := "G";
      kind := Directed;
      strict := false;
      attributes := [];
      graphs := [];
      nodes := [];
      edges := [];
      Tree := {this};
      Repr := {this};
    }

    /**
     * `Graph::create`: a `digraph` when directional, a `graph` otherwise; the
     * name defaults to `G` and the graph to directional.
     */
    static method Create(name: string := "G", directional: bool := true) returns (g: Graph)
      ensures fresh(g) && g.name == name && !g.strict
      ensures g.kind == if directional then Directed else Undirected
      ensures g.attributes == [] && g.graphs == [] && g.nodes == [] && g.edges == []
      ensures g.Tree == {g} && g.Repr == {g} && g.Valid()
    {
      g := new Graph();
      var _ := g.SetName(name);
      var _ := g.SetType(if directional then "digraph" else "graph");
    }

    /** `setName`: only the name changes. */
    method SetName(name: string) returns (self: Graph)
      modifies this`name
      ensures self == this && this.name == name
    {
      this.name := name;
      self := this;
    }

    /** `setStrict`: only the flag changes. */
    method SetStrict(isStrict: bool) returns (self: Graph)
      modifies this`strict
      ensures self == this && strict == isStrict
    {
      strict := isStrict;
      self := this;
    }

    /** `getType`: always one of the three accepted type names. */
    function GetType(): (r: string)
      reads this`kind
      ensures ParseGraphType(r) == Some(kind)
    {
      Keyword(kind)
    }

    /**
     * `setType`: one of `digraph`, `graph`, `subgraph` is stored; any other
     * string is refused with the invalid-type error and the type is kept.
     */
    method SetType(t: string) returns (r: Result<Graph>)
      modifies this`kind
      ensures ParseGraphType(t).None? ==> r == Err(InvalidGraphType(t)) && kind == old(kind)
      ensures ParseGraphType(t).Some? ==> r == Ok(this) && kind == ParseGraphType(t).value && GetType() == t
    {
      match ParseGraphType(t)
      case None =>
        r := Err(InvalidGraphType(t));
      case Some(k) =>
        kind := k;
        r := Ok(this);
    }

    /** `hasGraph`: some slot holds a subgraph under `name`. */
    function HasGraph(name: string): (b: bool)
      reads this`graphs
      ensures b <==> exists i :: 0 <= i < |graphs| && graphs[i].0 == name
    {
      PhpArrays.HasKey(graphs, name)
    }

    /** `getGraph`: the subgraph stored under `name`; PHP fails on a name that is not there. */
    function GetGraph(name: string): (g: Graph)
      requires HasGraph(name)
      reads this`graphs
      ensures exists i :: 0 <= i < |graphs| && graphs[i] == (name, g)
    {
      PhpArrays.Get(graphs, name).value
    }

    /**
     * `addGraph`: the child becomes a `subgraph` and is stored under its
     * name, replacing a subgraph of the same name in its slot.
     */
    method AddGraph(child: Graph) returns (self: Graph)
      requires Valid() && child.Valid() && this !in child.Tree
      modifies this`graphs, this`Tree, this`Repr, child`kind
      ensures self == this && child.kind == Sub
      ensures graphs == PhpArrays.Put(old(graphs), child.name, child)
      ensures HasGraph(child.name) && GetGraph(child.name) == child
      ensures forall n :: n != child.name ==> PhpArrays.Get(graphs, n) == PhpArrays.Get(old(graphs), n)
      ensures Tree == old(Tree) + child.Tree && Repr == old(Repr) + child.Repr
      ensures Valid()
    {
      ghost var before := graphs;
      if PhpArrays.HasKey(graphs, child.name) {
        var i :| 0 <= i < |graphs| && graphs[i].0 == child.name;
        assert PhpArrays.Put(graphs, child.name, child) == graphs[i := (child.name, child)] by {
          PhpArrays.PutPlacement(graphs, child.name, child);
        }
        PhpArrays.PutKeepsDistinct(graphs, child.name, child);
        ReplaceGraph(i, child);
      } else {
        PhpArrays.PutAppends(graphs, child.name, child);
        PhpArrays.PutKeepsDistinct(graphs, child.name, child);
        AppendGraph(child);
      }
      assert HasGraph(child.name) && GetGraph(child.name) == child &&
        forall n :: n != child.name ==> PhpArrays.Get(graphs, n) == PhpArrays.Get(before, n)
      by {
        PutFindsEveryKey(before, child.name, child);
      }
      self := this;
    }

    /** Makes `child` a subgraph and stores it in slot `i`, keeping the tree valid. */
    method ReplaceGraph(i: nat, child: Graph)
      requires Valid() && child.Valid() && this !in child.Tree
      requires i < |graphs| && PhpArrays.DistinctKeys(graphs[i := (child.name, child)])
      modifies this`graphs, this`Tree, this`Repr, child`kind
      ensures child.kind == Sub
      ensures graphs == old(graphs)[i := (child.name, child)]
      ensures Tree == old(Tree) + child.Tree && Repr == old(Repr) + child.Repr
      ensures Valid()
    {
      graphs, Tree, Repr, child.kind := graphs[i := (child.name, child)], Tree + child.Tree, Repr + child.Repr, Sub;
    }

    /** Makes `child` a subgraph and appends it as a new slot, keeping the tree valid. */
    method AppendGraph(child: Graph)
      requires Valid() && child.Valid() && this !in child.Tree
      requires PhpArrays.DistinctKeys(graphs + [(child.name, child)])
      modifies this`graphs, this`Tree, this`Repr, child`kind
      ensures child.kind == Sub
      ensures graphs == old(graphs) + [(child.name, child)]
      ensures Tree == old(Tree) + child.Tree && Repr == old(Repr) + child.Repr
      ensures Valid()
    {
      graphs, Tree, Repr, child.kind := graphs + [(child.name, child)], Tree + child.Tree, Repr + child.Repr, Sub;
    }

    /** `__get`: the node stored under `name`, or null when there is none. */
    function NodeNamed(name: string): (r: Option<Node>)
      reads this`nodes
      ensures r.None? <==> !PhpArrays.HasKey(nodes, name)
      ensures r.Some? ==> exists i :: 0 <= i < |nodes| && nodes[i] == (name, r.value)
    {
      PhpArrays.Get(nodes, name)
    }

    /** `__set`: stores the node under the given name, which `__get` then returns. */
    method MagicSet(name: string, node: Node) returns (self: Graph)
      requires Valid()
      modifies this`nodes, this`Repr
      ensures self == this && Valid()
      ensures nodes == PhpArrays.Put(old(nodes), name, node) && Repr == old(Repr) + {node}
      ensures NodeNamed(name) == Some(node)
      ensures forall n :: n != name ==> NodeNamed(n) == old(NodeNamed(n))
    {
      ghost var before := nodes;
      PhpArrays.PutKeepsDistinct(nodes, name, node);
      nodes := PhpArrays.Put(nodes, name, node);
      Repr := Repr + {node};
      assert NodeNamed(name) == Some(node) &&
        forall n :: n != name ==> PhpArrays.Get(nodes, n) == PhpArrays.Get(before, n)
      by {
        PutFindsEveryKey(before, name, node);
      }
      self := this;
    }

    /**
     * `setNode` as intended: the node is stored under its current name,
     * replacing a node of that name in its slot, and is itself unchanged.
     */
    method SetNode(node: Node) returns (self: Graph)
      requires Valid()
      modifies this`nodes, this`Repr
      ensures self == this && Valid()
      ensures nodes == PhpArrays.Put(old(nodes), node.name, node) && Repr == old(Repr) + {node}
      ensures NodeNamed(node.name) == Some(node)
    {
      self := MagicSet(node.name, node);
    }

    /**
     * `setNode` as written: `setGraphRoot($this)` reaches the node's magic
     * `__call`, which stores the graph's current text as attribute
     * `graphRoot` before the node is stored.
     */
    method SetNodeAsWritten(node: Node) returns (self: Graph)
      requires Valid()
      modifies this`nodes, this`Repr, node`attributes
      ensures self == this && Valid()
      ensures node.attributes == AttributeStore.SetAttribute(old(node.attributes), "graphRoot", old(ToDot()))
      ensures nodes == PhpArrays.Put(old(nodes), node.name, node) && Repr == old(Repr) + {node}
    {
      var text := ToDot();
      var _ := node.Call("setGraphRoot", text);
      assert Valid();
      GraphRootIsAnAttribute(old(node.attributes), text);
      self := MagicSet(node.name, node);
    }

    /** `link` as intended: the edge is appended; nothing is reordered or removed. */
    method Link(edge: Edge) returns (self: Graph)
      requires Valid()
      modifies this`edges, this`Repr
      ensures self == this && Valid()
      ensures edges == old(edges) + [edge] && Repr == old(Repr) + {edge, edge.from, edge.to}
    {
      edges := edges + [edge];
      Repr := Repr + {edge, edge.from, edge.to};
      self := this;
    }

    /**
     * `link` as written: `setGraphRoot($this)` reaches the edge's magic
     * `__call`, which stores the graph's current text as attribute
     * `graphRoot` before the edge is appended.
     */
    method LinkAsWritten(edge: Edge) returns (self: Graph)
      requires Valid()
      modifies this`edges, this`Repr, edge`attributes
      ensures self == this && Valid()
      ensures edge.attributes == AttributeStore.SetAttribute(old(edge.attributes), "graphRoot", old(ToDot()))
      ensures edges == old(edges) + [edge] && Repr == old(Repr) + {edge, edge.from, edge.to}
    {
      var text := ToDot();
      var _ := edge.Call("setGraphRoot", text);
      GraphRootIsAnAttribute(old(edge.attributes), text);
      assert edge.attributes == AttributeStore.SetAttribute(old(edge.attributes), "graphRoot", text);
      self := Link(edge);
    }

    /** `setAttribute` of the `AttributesAware` trait. */
    method SetAttribute(name: string, value: string) returns (self: Graph)
      requires Valid()
      modifies this`attributes
      ensures self == this && Valid()
      ensures attributes == AttributeStore.SetAttribute(old(attributes), name, value)
      ensures AttributeStore.GetAttribute(attributes, name) == Ok(DotAttribute.Attr(name, value))
    {
      SetThenGet(attributes, name, value);
      attributes := AttributeStore.SetAttribute(attributes, name, value);
      self := this;
    }

    /** `getAttribute` of the `AttributesAware` trait: it changes nothing. */
    method GetAttribute(name: string) returns (r: Result<DotAttribute.Attr>)
      ensures r == AttributeStore.GetAttribute(attributes, name)
    {
      r := AttributeStore.GetAttribute(attributes, name);
    }

    /** `Graph::__call`. */
    method Call(methodName: string, arg: string) returns (outcome: Outcome)
      modifies this`attributes
      ensures (attributes, outcome) == GraphCall(old(attributes), methodName, arg)
      ensures old(Valid()) ==> Valid()
    {
      var r := GraphCall(attributes, methodName, arg);
      attributes, outcome := r.0, r.1;
    }
  }

  /**
   * Nodes and edges have no `setGraphRoot` of their own, so the call reaches
   * the magic `__call`: it stores the graph, cast to its DOT text, as the
   * attribute `graphRoot`.
   */
  lemma GraphRootIsAnAttribute(s: Store, text: string)
    ensures AttributeStore.Call(s, "setGraphRoot", text) == (AttributeStore.SetAttribute(s, "graphRoot", text), ReturnedSelf)
  {
    assert "setGraphRoot" == "set" + "GraphRoot";
    MagicSetIsSetAttribute(s, "set", "GraphRoot", text);
    assert NormalizeKey("GraphRoot") == "graphRoot";
  }

  /**
   * `Graph::__call`: a name starting with `set` or `get` in any case
   * addresses the attribute named by the whole rest of the name in lower
   * case; any other name returns null.
   */
  function GraphCall(s: Store, methodName: string, arg: string): (r: (Store, Outcome))
    ensures AttributeStore.Valid(s) ==> AttributeStore.Valid(r.0)
    ensures r.0 != s ==> StartsWithIgnoreCase(methodName, "set")
  {
    var key := Lower(SubstrFrom(methodName, 3));
    if StartsWithIgnoreCase(methodName, "set") then (AttributeStore.SetAttribute(s, key, arg), ReturnedSelf)
    else if StartsWithIgnoreCase(methodName, "get") then
      (s, match AttributeStore.GetAttribute(s, key)
          case Ok(a) => ReturnedAttribute(a)
          case Err(e) => Threw(e))
    else (s, ReturnedNull)
  }

  /** A graph's magic setter stores under the whole suffix lower-cased and returns the graph. */
  lemma GraphMagicSet(s: Store, prefix: string, x: string, v: string)
    requires |prefix| == 3 && Lower(prefix) == "set"
    ensures GraphCall(s, prefix + x, v) == (AttributeStore.SetAttribute(s, Lower(x), v), ReturnedSelf)
  {
    PrefixIgnoresCase(x, prefix, "set");
    assert SubstrFrom(prefix + x, 3) == x;
  }

  /**
   * A graph's magic getter reads the whole suffix lower-cased: the attribute
   * when present, `AttributeNotFound` otherwise; the store is untouched.
   */
  lemma GraphMagicGet(s: Store, prefix: string, x: string, v: string)
    requires |prefix| == 3 && Lower(prefix) == "get"
    ensures GraphCall(s, prefix + x, v).0 == s
    ensures Has(s, Lower(x)) ==>
      GraphCall(s, prefix + x, v).1 == ReturnedAttribute(AttributeStore.GetAttribute(s, Lower(x)).value)
    ensures !Has(s, Lower(x)) ==>
      GraphCall(s, prefix + x, v).1 == Threw(AttributeNotFound(Lower(x)))
  {
    PrefixIgnoresCase(x, prefix, "get");
    assert SubstrFrom(prefix + x, 3) == x;
    assert !StartsWithIgnoreCase(prefix + x, "set") by {
      assert (prefix + x)[..3] == prefix;
      assert Lower(prefix)[0] == 'g';
    }
  }

  /** A name starting with neither `set` nor `get` returns null and changes nothing. */
  lemma OtherGraphCallsDoNothing(s: Store, methodName: string, v: string)
    requires !StartsWithIgnoreCase(methodName, "set") && !StartsWithIgnoreCase(methodName, "get")
    ensures GraphCall(s, methodName, v) == (s, ReturnedNull)
  {
  }

  /**
   * `Graph::create()` without arguments is the directed graph `G`;
   * `Graph::create('MyName', false)` is the undirected graph `MyName`.
   */
  method CreateExample() returns (defaultName: string, defaultType: string, name: string, kind: string)
    ensures defaultName == "G" && defaultType == "digraph"
    ensures name == "MyName" && kind == "graph"
  {
    var g := Graph.Create();
    defaultName, defaultType := g.name, g.GetType();
    var h := Graph.Create("MyName", false);
    name, kind := h.name, h.GetType();
  }
}
