/**
 * Optional values, results and the failures the object model raises: a
 * missing attribute (`AttributeNotFound`) and a graph type outside the three
 * the format knows (PHP's `InvalidArgumentException` from `Graph::setType`).
 */
module Results {

  datatype Option<+T> = None | Some(value: T)

  datatype Failure =
    | AttributeNotFound(name: string)
    | InvalidGraphType(given: string)

  datatype Result<+T> = Ok(value: T) | Err(error: Failure)

  const NotFoundPrefix: string := "Attribute with name \""
  const NotFoundSuffix: string := "\" was not found."
  const InvalidTypeMessage: string :=
    "The type for a graph must be either \"digraph\", \"graph\" or \"subgraph\""

  /**
   * The exception message. A missing attribute's message quotes the name
   * that was asked for; the graph-type message is fixed and does not repeat
   * the rejected value.
   */
  function Message(f: Failure): (m: string)
    ensures f.AttributeNotFound? ==>
      |m| == |NotFoundPrefix| + |f.name| + |NotFoundSuffix| &&
      m[..|NotFoundPrefix|] == NotFoundPrefix &&
      m[|NotFoundPrefix|..|m| - |NotFoundSuffix|] == f.name &&
      m[|m| - |NotFoundSuffix|..] == NotFoundSuffix
    ensures f.InvalidGraphType? ==> m == InvalidTypeMessage
  {
    match f
    case AttributeNotFound(name) => NotFoundPrefix + name + NotFoundSuffix
    case InvalidGraphType(_) => InvalidTypeMessage
  }

  /** Two missing-attribute failures with the same message asked for the same name. */
  lemma NotFoundMessageInjective(a: string, b: string)
    requires Message(AttributeNotFound(a)) == Message(AttributeNotFound(b))
    ensures a == b
  {
    var m := Message(AttributeNotFound(a));
    assert a == m[|NotFoundPrefix|..|m| - |NotFoundSuffix|];
  }
}
