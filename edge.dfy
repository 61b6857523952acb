/**
 * An edge (src/phpDocumentor/GraphViz/Edge.php): two shared node
 * references and an attribute store. The endpoints' names are read when
 * the edge is rendered, and the connector is always `->`.
 */
module Edges {
  import opened Results
  import opened PhpStrings
  import opened AttributeStore
  import opened Nodes
  import DotAttribute

  /** The DOT text of an edge between nodes named `fromName` and `toName`. */
  function EdgeText(fromName: string, toName: string, attrs: Store): string {
    Quoted(fromName) + AfterSource(toName, attrs)
  }

  /** The connector between the two quoted names: always `->`. */
  const Connector: string := " -> "

  /** What follows the source node's quoted name in an edge's text. */
  function AfterSource(toName: string, attrs: Store): string {
    Connector + Quoted(toName) + AttributeBlock(attrs)
  }

  /** The first quoted token of an edge's text gives back the source node's name. */
  lemma EdgeTextNamesSource(fromName: string, toName: string, attrs: Store)
    ensures EdgeText(fromName, toName, attrs)[0] == '"'
    ensures ReadQuoted(EdgeText(fromName, toName, attrs)[1..]) == (AddSlashes(fromName), AfterSource(toName, attrs))
    ensures StripSlashes(AddSlashes(fromName)) == fromName
  {
    ReadQuotedToken(fromName, AfterSource(toName, attrs));
  }

  /** After the source's token comes ` -> ` and a quoted token giving back the target's name. */
  lemma EdgeTextNamesTarget(toName: string, attrs: Store)
    ensures AfterSource(toName, attrs)[..|Connector|] == Connector
    ensures AfterSource(toName, attrs)[|Connector|] == '"'
    ensures ReadQuoted(AfterSource(toName, attrs)[|Connector| + 1..]) == (AddSlashes(toName), AttributeBlock(attrs))
    ensures StripSlashes(AddSlashes(toName)) == toName
  {
    var t := Quoted(toName) + AttributeBlock(attrs);
    ReadQuotedToken(toName, AttributeBlock(attrs));
    assert AfterSource(toName, attrs) == Connector + t;
    assert AfterSource(toName, attrs)[|Connector| + 1..] == t[1..];
  }

  /**
   * Two edges render alike only between equally named endpoints, so
   * renaming a linked node changes the text of every edge touching it.
   */
  lemma EdgeTextDeterminesEndpoints(a: string, b: string, c: string, d: string, s1: Store, s2: Store)
    requires EdgeText(a, b, s1) == EdgeText(c, d, s2)
    ensures a == c && b == d
  {
    EdgeTextNamesSource(a, b, s1);
    EdgeTextNamesSource(c, d, s2);
    EdgeTextNamesTarget(b, s1);
    EdgeTextNamesTarget(d, s2);
    assert AfterSource(b, s1) == AfterSource(d, s2);
  }

  /** An edge from `a` to `b` with no attributes. */
  lemma EdgeTextExample()
    ensures EdgeText("a", "b", []) == "\"a\" -> \"b\" [\n\n]"
  {
    assert Quoted("a") == "\"a\"" by {
      assert AddSlashes("a") == "a";
    }
    assert Quoted("b") == "\"b\"" by {
      assert AddSlashes("b") == "b";
    }
    assert AttributeBlock([]) == " [\n\n]" by {
      assert Texts([]) == [];
    }
  }

  class Edge {
    const from: Node
    const to: Node
    var attributes: Store

    ghost predicate Valid()
      reads this`attributes
    {
      AttributeStore.Valid(attributes)
    }

    /** `new Edge($from, $to)`: the two nodes are kept by reference. */
    constructor (from: Node, to: Node)
      ensures this.from == from && this.to == to && attributes == [] && Valid()
    {
      this.from := from;
      this.to := to;
      attributes := [];
    }

    /** `Edge::create`. */
    static method Create(from: Node, to: Node) returns (edge: Edge)
      ensures fresh(edge) && edge.from == from && edge.to == to && edge.attributes == [] && edge.Valid()
    {
      edge := new Edge(from, to);
    }

    /** `setAttribute` of the `Attributes` trait. */
    method SetAttribute(name: string, value: string) returns (self: Edge)
      requires Valid()
      modifies this`attributes
      ensures self == this && Valid()
      ensures attributes == AttributeStore.SetAttribute(old(attributes), name, value)
      ensures AttributeStore.GetAttribute(attributes, name) == Ok(DotAttribute.Attr(name, value))
    {
      SetThenGet(attributes, name, value);
      attributes := AttributeStore.SetAttribute(attributes, name, value);
      self := this;
    }

    /** `getAttribute` of the `Attributes` trait: it changes nothing. */
    method GetAttribute(name: string) returns (r: Result<DotAttribute.Attr>)
      ensures r == AttributeStore.GetAttribute(attributes, name)
    {
      r := AttributeStore.GetAttribute(attributes, name);
    }

    /** `__call` of the `Attributes` trait. */
    method Call(methodName: string, arg: string) returns (outcome: Outcome)
      modifies this`attributes
      ensures (attributes, outcome) == AttributeStore.Call(old(attributes), methodName, arg)
      ensures old(Valid()) ==> Valid()
    {
      var r := AttributeStore.Call(attributes, methodName, arg);
      attributes, outcome := r.0, r.1;
    }

    function ToDot(): string
      reads this, from, to
    {
      EdgeText(from.name, to.name, attributes)
    }

    /** `__toString`: both endpoint names, then the attribute lines in brackets. */
    method ToString() returns (text: string)
      ensures text == ToDot()
    {
      var lines := Lines(attributes);
      var block := " [\n" + Implode("\n", lines) + "\n]";
      var target := Connector + Quoted(to.name) + block;
      text := Quoted(from.name) + target;
    }
  }
}
