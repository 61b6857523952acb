/**
 * A graph node (src/phpDocumentor/GraphViz/Node.php): a name and an
 * attribute store, rendered as the quoted, `addslashes`-escaped name
 * followed by its attribute lines in square brackets.
 */
module Nodes {
  import opened Results
  import opened PhpStrings
  import opened AttributeStore
  import DotAttribute

  /** The DOT text of a node named `name` with attributes `attrs`. */
  function NodeText(name: string, attrs: Store): string {
    Quoted(name) + AttributeBlock(attrs)
  }

  /** The attribute lines between square brackets, each bracket on a line of its own. */
  function AttributeBlock(attrs: Store): string {
    " [\n" + Implode("\n", Texts(attrs)) + "\n]"
  }

  /**
   * Reading the quoted token at the front of a node's text gives back the
   * node's name exactly, whatever characters it holds; what follows is the
   * attribute block.
   */
  lemma NodeTextNamesNode(name: string, attrs: Store)
    ensures NodeText(name, attrs)[0] == '"'
    ensures StripSlashes(ReadQuoted(NodeText(name, attrs)[1..]).0) == name
    ensures ReadQuoted(NodeText(name, attrs)[1..]).1 == AttributeBlock(attrs)
  {
    ReadQuotedToken(name, AttributeBlock(attrs));
  }

  /** Two nodes with different names never render alike. */
  lemma NodeTextDeterminesName(a: string, b: string, attrsA: Store, attrsB: Store)
    requires NodeText(a, attrsA) == NodeText(b, attrsB)
    ensures a == b
  {
    NodeTextNamesNode(a, attrsA);
    NodeTextNamesNode(b, attrsB);
  }

  /** Adding an attribute the node lacks always changes its text. */
  lemma NewAttributeChangesText(name: string, attrs: Store, key: string, value: string)
    requires Valid(attrs) && !Has(attrs, key)
    ensures NodeText(name, SetAttribute(attrs, key, value)) != NodeText(name, attrs)
  {
    TextsAfterSet(attrs, key, value);
    var line := DotAttribute.AttributeText(key, value);
    var before := Implode("\n", Texts(attrs));
    var after := Implode("\n", Texts(attrs) + [line]);
    if Texts(attrs) == [] {
      assert Texts(attrs) + [line] == [line];
      assert |after| == |line| > 0;
    } else {
      ImplodeAppend("\n", Texts(attrs), [line]);
      assert |after| > |before|;
    }
    assert |NodeText(name, SetAttribute(attrs, key, value))| > |NodeText(name, attrs)|;
  }

  /** A node without attributes renders an empty line between its brackets. */
  lemma BareNodeExample()
    ensures NodeText("name", []) == "\"name\" [\n\n]"
  {
    assert Quoted("name") == "\"name\"" by {
      assert AddSlashes("name") == "name";
    }
    assert AttributeBlock([]) == " [\n\n]" by {
      assert Texts([]) == [];
    }
  }

  /** The name is escaped with `addslashes`, the label value quoted. */
  lemma LabelledNodeExample()
    ensures NodeText("a\"b", [("label", "x")]) == "\"a\\\"b\" [\nlabel=\"x\"\n]"
  {
    QuoteInNameExample();
    LabelBlockExample();
  }

  lemma QuoteInNameExample()
    ensures Quoted("a\"b") == "\"a\\\"b\""
  {
    assert AddSlashes("b") == "b";
    assert AddSlashes("\"b") == "\\\"b";
    assert AddSlashes("a\"b") == "a\\\"b";
  }

  lemma LabelBlockExample()
    ensures AttributeBlock([("label", "x")]) == " [\nlabel=\"x\"\n]"
  {
    var line := DotAttribute.AttributeText("label", "x");
    assert line == "label=\"x\"" by {
      assert AddSlashes("x") == "x";
    }
    assert Texts([("label", "x")]) == [line];
  }

  class Node {
    var name: string
    var attributes: Store

    /** No attribute name is stored twice. */
    ghost predicate Valid()
      reads this`attributes
    {
      AttributeStore.Valid(attributes)
    }

    /**
     * `new Node($name, $label)`: a label, when given, is set through the
     * magic `setLabel`, so it is stored as attribute `label`.
     */
    constructor (name: string, nodeLabel: Option<string> := None)
      ensures this.name == name && Valid()
      ensures nodeLabel.None? ==> attributes == []
      ensures nodeLabel.Some? ==> attributes == [("label", nodeLabel.value)]
    {
      this.name := name;
      attributes := [];
      new;
      if nodeLabel.Some? {
        MagicSetIsSetAttribute([], "set", "Label", nodeLabel.value);
        assert NormalizeKey("Label") == "label";
        var _ := Call("setLabel", nodeLabel.value);
      }
    }

    /** `Node::create`: the same node the constructor builds. */
    static method Create(name: string, nodeLabel: Option<string> := None) returns (node: Node)
      ensures fresh(node) && node.name == name && node.Valid()
      ensures nodeLabel.None? ==> node.attributes == []
      ensures nodeLabel.Some? ==> node.attributes == [("label", nodeLabel.value)]
    {
      node := new Node(name, nodeLabel);
    }

    /** `setName`: only the name changes, and the node itself is returned. */
    method SetName(name: string) returns (self: Node)
      modifies this`name
      ensures self == this && this.name == name
    {
      this.name := name;
      self := this;
    }

    /** `setAttribute` of the `Attributes` trait. */
    method SetAttribute(name: string, value: string) returns (self: Node)
      requires Valid()
      modifies this`attributes
      ensures self == this && Valid()
      ensures attributes == AttributeStore.SetAttribute(old(attributes), name, value)
      ensures AttributeStore.GetAttribute(attributes, name) == Ok(DotAttribute.Attr(name, value))
    {
      SetThenGet(attributes, name, value);
      attributes := AttributeStore.SetAttribute(attributes, name, value);
      self := this;
    }

    /** `getAttribute` of the `Attributes` trait: it changes nothing. */
    method GetAttribute(name: string) returns (r: Result<DotAttribute.Attr>)
      ensures r == AttributeStore.GetAttribute(attributes, name)
    {
      r := AttributeStore.GetAttribute(attributes, name);
    }

    /** `__call` of the `Attributes` trait. */
    method Call(methodName: string, arg: string) returns (outcome: Outcome)
      modifies this`attributes
      ensures (attributes, outcome) == AttributeStore.Call(old(attributes), methodName, arg)
      ensures old(Valid()) ==> Valid()
    {
      var r := AttributeStore.Call(attributes, methodName, arg);
      attributes, outcome := r.0, r.1;
    }

    function ToDot(): string
      reads this
    {
      NodeText(name, attributes)
    }

    /** `__toString`: the attribute lines, joined, inside the node's brackets. */
    method ToString() returns (text: string)
      ensures text == ToDot()
    {
      var lines := Lines(attributes);
      var block := " [\n" + Implode("\n", lines) + "\n]";
      text := Quoted(name) + block;
    }
  }

  /** `new Node('a')` without a label has no attributes; with one, only `label`. */
  method NewNodeExample() returns (bare: Store, labelled: Store)
    ensures bare == [] && labelled == [("label", "b")]
  {
    var n := new Node("a");
    var m := new Node("a", Some("b"));
    bare, labelled := n.attributes, m.attributes;
  }
}
