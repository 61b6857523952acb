# GraphViz DOT object model

A model of the object model and DOT serialiser of phpDocumentor/GraphViz:
- `Attribute` key/value pairs and their escaping rules;
- the two attribute stores: the `Attributes` trait used by nodes and edges, with its magic `setX`/`getX` methods, and the `AttributesAware` trait used by graphs;
- `Node`;
- `Edge`;
- `Graph`, with its subgraphs, node index, edge list, recursive `findNode` and recursive rendering.

Modules:

- `Results`: `Option`, `Result`, and the two failures the library raises:
  - `AttributeNotFound`, with its message;
  - the `InvalidArgumentException` of `setType`.
- `PhpStrings`: the PHP string functions the core calls:
  - `addslashes`/`stripslashes`, with a reader for a double-quoted DOT string;
  - ASCII `strtolower`, `lcfirst`, `substr` and `implode`.
- `PhpArrays`: PHP's insertion-ordered arrays.
  - An array is a sequence of (key, value) pairs with distinct keys.
  - Writing an existing key keeps its slot.
  - `array_merge`: integer-like string keys are renumbered and appended. A string key seen again overwrites the earlier slot.
- `DotAttribute`:
  - how a key and value are written: `url` becomes `URL`; a value holding a backslash is escaped as a Graphviz escString (`encodeSpecials`); an HTML-like value is written bare; any other value is quoted with `addslashes`;
  - the `Attribute` class with `setKey`/`setValue`.
- `AttributeStore`:
  - the store as an ordered map from name to value;
  - `setAttribute`, `getAttribute`;
  - `Attributes::__call`, which lower-cases only the first letter of the suffix;
  - the rendering loop over the store.
- `Nodes`, `Edges`: the `Node` and `Edge` classes and their DOT text.
  - An edge holds its two nodes by reference and reads their names when it is rendered.
- `Graphs`: the `Graph` class.
  - Its subgraphs form a tree. The ghost `Tree` holds the graphs in it, and the ghost `Repr` holds every object rendering reads.
  - Rendering is a recursive function.
  - `findNode` is a recursive search.
  - The mutators (`addGraph`, `setNode`, `__set`, `link`, `setType`, `setName`, `setStrict`, `setAttribute`, `__call`) are methods that update the fields in place.

Where the code and its documentation differ, the model follows the code:
- An edge is always written with `->`, whatever the graph's type.
- The graph's name is written between quotes without escaping.
- `addslashes` writes NUL as a backslash followed by `0`. `encodeSpecials` instead puts a backslash in front of the NUL character itself.

Where the code has a bug (see "## Findings"), the model uses the intended behaviour and keeps the code as written in a separate member. So attribute values are rendered with the corrected `encodeSpecials`, and so are the node, edge and graph texts built on them. They differ from the code on a value holding a `\\` pair that is followed by nothing or by a character other than an escString letter. `RenderValueAsWritten` models the code's rendering.

## Model

| member | source | states |
|---|---|---|
| `Results.Message` | src/phpDocumentor/GraphViz/AttributeNotFound.php:8-11 | The not-found message is the fixed prefix, the requested name, then the fixed suffix. The invalid-type message is the fixed sentence. |
| `Results.NotFoundMessageInjective` | src/phpDocumentor/GraphViz/AttributeNotFound.php:10 | Equal not-found messages name the same attribute. |
| `PhpStrings.StripAddSlashes` | src/phpDocumentor/GraphViz/Node.php:100 | `stripslashes` undoes `addslashes` on every string. |
| `PhpStrings.AddSlashesInjective` | src/phpDocumentor/GraphViz/Node.php:100 | Different names escape differently. |
| `PhpStrings.AddSlashesQuotable` | src/phpDocumentor/GraphViz/Attribute.php:61 | An `addslashes` result never holds an unescaped `"` and never ends in a lone backslash, so it fits between quotes. |
| `PhpStrings.ReadQuotedBody` | src/phpDocumentor/GraphViz/Attribute.php:61 | A DOT reader stops at the quote that closes such a body, whatever follows it. |
| `PhpStrings.ReadQuotedToken` | src/phpDocumentor/GraphViz/Node.php:100-103 | After a quoted, `addslashes`-escaped name, a reader gets back the escaped name and the rest of the text, and unescaping gives the name. |
| `PhpStrings.LowerFirst` | src/phpDocumentor/GraphViz/Attributes.php:76 | `lcfirst` changes only the first character, and only an upper-case ASCII letter. |
| `PhpStrings.Lower` | src/phpDocumentor/GraphViz/Graph.php:80 | `strtolower` maps each character independently and keeps the length. |
| `PhpStrings.ImplodeAppend` | src/phpDocumentor/GraphViz/Node.php:98 | Joining two non-empty lists is joining each and putting the separator between. |
| `PhpArrays.Put` | src/phpDocumentor/GraphViz/Attributes.php:25 | `$m[$k] = $v` grows the array only for a new key, and every slot holds either the new pair or the old slot's pair. |
| `PhpArrays.PutPlacement` | src/phpDocumentor/GraphViz/Attributes.php:25 | A new key is appended last. An existing key is overwritten in its own slot, and every other slot keeps its place. |
| `PhpArrays.PutGetSame` | src/phpDocumentor/GraphViz/Attributes.php:23-28 | After the write, the key reads the new value. |
| `PhpArrays.PutGetOther` | src/phpDocumentor/GraphViz/Attributes.php:23-28 | After the write, every other key reads as before. |
| `PhpArrays.PutKeepsDistinct` | src/phpDocumentor/GraphViz/Attributes.php:25 | The write keeps keys distinct. |
| `PhpArrays.MergeKey` | src/phpDocumentor/GraphViz/Graph.php:126-131 | `array_merge` keeps a string key exactly when it is not integer-like. |
| `PhpArrays.MergeWithoutCollisions` | src/phpDocumentor/GraphViz/Graph.php:126-131 | With no string key repeated, `array_merge` is concatenation. |
| `PhpArrays.MergeOneCollides` | src/phpDocumentor/GraphViz/Graph.php:126-131 | A repeated string key overwrites the earlier element in the earlier element's slot. |
| `PhpArrays.ValuesAppend` | src/phpDocumentor/GraphViz/Graph.php:135-137 | The values of a concatenation are the concatenated values. |
| `DotAttribute.RenderKey` | src/phpDocumentor/GraphViz/Attribute.php:50-54 | Only the key `url`, spelled exactly so, is changed, and it becomes `URL`. |
| `DotAttribute.EncodeSpecialsAsWritten` | src/phpDocumentor/GraphViz/Attribute.php:130-136 | The regex replace as written never shortens the value. |
| `DotAttribute.EncodeSpecials` | src/phpDocumentor/GraphViz/Attribute.php:125-136 | `encodeSpecials` as intended never shortens the value. |
| `DotAttribute.EncodeSpecialsOnlyAddsBackslashes` | src/phpDocumentor/GraphViz/Attribute.php:130-136 | Removing every backslash from the encoded value and from the value gives the same text. Encoding only inserts backslashes. |
| `DotAttribute.EncodeSpecialsQuotable` | src/phpDocumentor/GraphViz/Attribute.php:59 | The encoded value always fits between double quotes: no bare `"`, no dangling final backslash. |
| `DotAttribute.EncodeSpecialsAsWrittenBreaksQuoting` | src/phpDocumentor/GraphViz/Attribute.php:133 | The regex turns the value `\\` into three backslashes. That text is not a valid quoted body, and its quote is read as escaped. The intended encoder keeps `\\`. |
| `DotAttribute.EncodeSpecialsAgreesAwayFromPairs` | src/phpDocumentor/GraphViz/Attribute.php:133 | On values with no two backslashes in a row, the regex as written and the intended encoder agree. |
| `DotAttribute.EncodeSpecialsIsAddSlashesOnLoneBackslashes` | src/phpDocumentor/GraphViz/Attribute.php:58-59 | On a value without NUL whose backslashes are each followed by nothing or by a non-escString character, both the regex as written and the corrected encoder are `addslashes`. This includes values that reach it, which hold a backslash. |
| `DotAttribute.EncodeSpecialsKeepsEscStrings` | src/phpDocumentor/GraphViz/Attribute.php:125-128 | The corrected encoder leaves a value exactly as it is if and only if the value is plain characters and escString sequences, `\\` included. Any lone backslash, quote, apostrophe or NUL makes the result longer. |
| `DotAttribute.EncodeCopies` | src/phpDocumentor/GraphViz/Attribute.php:133 | A character that is neither a backslash nor quote-like is copied. |
| `DotAttribute.EncodeEscapes` | src/phpDocumentor/GraphViz/Attribute.php:133 | `'`, `"` and NUL each get one backslash in front. |
| `DotAttribute.EncodeKeepsPair` | src/phpDocumentor/GraphViz/Attribute.php:133 | A backslash followed by an escString letter is copied as a pair. |
| `DotAttribute.IsValueContainingSpecials` | src/phpDocumentor/GraphViz/Attribute.php:86-89 | The value holds a backslash. Its consequences are stated by `RenderValue` and `RenderValueAsWritten`. |
| `DotAttribute.IsValueInHtml` | src/phpDocumentor/GraphViz/Attribute.php:94-99 | The value is non-empty and starts with `<`. Its consequence is stated by `RenderValue`: such a value without a backslash is written bare. |
| `DotAttribute.RenderValue` | src/phpDocumentor/GraphViz/Attribute.php:56-62 | Corrected rendering. A value that starts with `<` and holds no backslash is written unchanged. Every other value is written between double quotes. `RenderedValueIsOneToken` states that the result is one token. |
| `DotAttribute.RenderValueAsWritten` | src/phpDocumentor/GraphViz/Attribute.php:56-62 | The code's rendering, with the regex as written. On a value without a backslash it is the corrected rendering. |
| `DotAttribute.RenderValueAgreesAwayFromPairs` | src/phpDocumentor/GraphViz/Attribute.php:58-59 | On a value with no two backslashes in a row, the code's rendering and the corrected one agree. |
| `DotAttribute.RenderValueAsWrittenClosesEarly` | src/phpDocumentor/GraphViz/Attribute.php:58-59 | The code renders the value `\\"` as four backslashes and a quote between quotes. A reader then closes the token before the final quote. The corrected rendering writes it as one token. |
| `DotAttribute.RenderedValueIsOneToken` | src/phpDocumentor/GraphViz/Attribute.php:56-62 | For the corrected rendering: a bare HTML-like value is written unchanged, and every other value is one double-quoted token that a reader closes at the last character. The code's rendering does not always do this (`RenderValueAsWrittenClosesEarly`). |
| `DotAttribute.AttributeText` | src/phpDocumentor/GraphViz/Attribute.php:48-65 | The rendered key, `=`, then the rendered value. `AttributeRoundTrip` states that the line reads back as key and value. |
| `DotAttribute.AttributeRoundTrip` | src/phpDocumentor/GraphViz/Attribute.php:48-65 | For a key without `=` and a value without a backslash, reading back the line gives the rendered key and exactly the value. |
| `DotAttribute.SplitAtEqualsFirst` | src/phpDocumentor/GraphViz/Attribute.php:64 | The key is everything before the first `=`. |
| `DotAttribute.AttributeTextPlainExamples` | src/phpDocumentor/GraphViz/Attribute.php:60-61 | `a=b` renders as `a="b"`; a quote in the value is backslashed. |
| `DotAttribute.QuotedValueExample` | src/phpDocumentor/GraphViz/Attribute.php:60-61 | The value `a"a` is written as `"a\"a"`. |
| `DotAttribute.UrlKeyExample` | src/phpDocumentor/GraphViz/Attribute.php:52-54 | The key `url` renders as `URL`. |
| `DotAttribute.HtmlValueExample` | src/phpDocumentor/GraphViz/Attribute.php:94-99 | A value starting with `<` is written bare. |
| `DotAttribute.EscStringKeptExample` | src/phpDocumentor/GraphViz/Attribute.php:58-59 | `\l` in a value survives unchanged inside the quotes. |
| `DotAttribute.EscStringQuoteExample` | src/phpDocumentor/GraphViz/Attribute.php:58-59 | In a value with `\l`, a quote is still backslashed. |
| `DotAttribute.DoubleBackslashExample` | src/phpDocumentor/GraphViz/Attribute.php:58-59 | A `\\` pair before `l` stays as it is. |
| `DotAttribute.Attribute.constructor` | src/phpDocumentor/GraphViz/Attribute.php:39-43 | The new attribute holds the given key and value. |
| `DotAttribute.Attribute.SetKey` | src/phpDocumentor/GraphViz/Attribute.php:106-111 | Only the key changes, and the same attribute is returned. |
| `DotAttribute.Attribute.SetValue` | src/phpDocumentor/GraphViz/Attribute.php:118-123 | Only the value changes, and the same attribute is returned. |
| `DotAttribute.Attribute.ToDot` | src/phpDocumentor/GraphViz/Attribute.php:48-65 | `__toString`: for a key without `=` and a value without a backslash, the line reads back as the rendered key and exactly the value. |
| `AttributeStore.SetAttribute` | src/phpDocumentor/GraphViz/Attributes.php:23-28 | The name is present afterwards, and a store with distinct names keeps them distinct. |
| `AttributeStore.GetAttribute` | src/phpDocumentor/GraphViz/Attributes.php:33-40 | The result is an attribute exactly when the name is stored. Its key is the name and its value the stored one. Otherwise the result is `AttributeNotFound` naming it. |
| `AttributeStore.SetThenGet` | src/phpDocumentor/GraphViz/Attributes.php:23-40 | After `setAttribute(n, v)`, `getAttribute(n)` is `n=v`. |
| `AttributeStore.SetLeavesOthers` | src/phpDocumentor/GraphViz/Attributes.php:23-28 | Every other name reads as before. |
| `AttributeStore.SetPlacement` | src/phpDocumentor/GraphViz/Attributes.php:25 | A re-set name keeps its slot, and every other entry keeps its place. A new name goes last. |
| `AttributeStore.Texts` | src/phpDocumentor/GraphViz/Node.php:93-96 | One attribute line per entry, in order. |
| `AttributeStore.TextsAfterSet` | src/phpDocumentor/GraphViz/Node.php:93-96 | Re-setting an attribute rewrites its own line where it stands. A new attribute adds a last line. |
| `AttributeStore.Lines` | src/phpDocumentor/GraphViz/Node.php:93-96 | The rendering loop produces exactly the attribute lines, in insertion order. |
| `AttributeStore.NormalizeKey` | src/phpDocumentor/GraphViz/Attributes.php:74-77 | `normalizeKey` lower-cases the first character and keeps the rest. |
| `AttributeStore.Call` | src/phpDocumentor/GraphViz/Attributes.php:59-72 | The magic call keeps the names distinct and changes the store only for a `set` name. |
| `AttributeStore.MagicSetIsSetAttribute` | src/phpDocumentor/GraphViz/Attributes.php:61-65 | `setX(v)`, with `set` in any case, is `setAttribute(lcfirst(X), v)` and returns the object. |
| `AttributeStore.MagicGetIsGetAttribute` | src/phpDocumentor/GraphViz/Attributes.php:61-69 | `getX()` changes nothing. It returns the attribute under `lcfirst(X)`, or throws `AttributeNotFound` naming it. |
| `AttributeStore.OtherCallsDoNothing` | src/phpDocumentor/GraphViz/Attributes.php:71 | Any other method name returns null and changes nothing. |
| `AttributeStore.MagicSetThenGet` | src/phpDocumentor/GraphViz/Attributes.php:59-77 | A magic set and then the matching magic get returns the attribute just set. |
| `AttributeStore.MainShapeExample` | src/phpDocumentor/GraphViz/Attributes.php:74-77 | `setMainShape` writes the entry `mainShape`, which `getMainShape` reads back. |
| `AttributeStore.FooBarExample` | src/phpDocumentor/GraphViz/Attributes.php:71 | `fooBar` returns null. |
| `Nodes.NodeText` | src/phpDocumentor/GraphViz/Node.php:91-107 | The quoted, escaped name, then the attribute block. `NodeTextNamesNode` and `NodeTextDeterminesName` state what it promises. |
| `Nodes.AttributeBlock` | src/phpDocumentor/GraphViz/Node.php:93-106 | The attribute lines, joined by line breaks, between brackets on lines of their own. `NewAttributeChangesText` states that a new attribute changes it. |
| `Nodes.NodeTextNamesNode` | src/phpDocumentor/GraphViz/Node.php:91-107 | A node's text opens with a quoted token that reads back as exactly the node's name, followed by the attribute block. |
| `Nodes.NodeTextDeterminesName` | src/phpDocumentor/GraphViz/Node.php:100-103 | Nodes with different names never render alike. |
| `Nodes.NewAttributeChangesText` | src/phpDocumentor/GraphViz/Node.php:93-106 | Adding an attribute a node lacks changes its text. |
| `Nodes.BareNodeExample` | src/phpDocumentor/GraphViz/Node.php:98-106 | A node without attributes has an empty line between its brackets. |
| `Nodes.LabelledNodeExample` | src/phpDocumentor/GraphViz/Node.php:91-107 | A quote in a name is backslashed, and the label line is quoted. |
| `Nodes.Node.constructor` | src/phpDocumentor/GraphViz/Node.php:43-51 | The name is set. A label, when given, is the only attribute, stored as `label`. Without one, the default, there are no attributes. |
| `Nodes.NewNodeExample` | src/phpDocumentor/GraphViz/Node.php:43-51 | `new Node('a')` with the label left out has no attributes. With the label `b`, it has only `label=b`. |
| `Nodes.Node.Create` | src/phpDocumentor/GraphViz/Node.php:61-64 | `create` gives the same state as the constructor. |
| `Nodes.Node.SetName` | src/phpDocumentor/GraphViz/Node.php:73-78 | Only the name changes, and the node is returned. |
| `Nodes.Node.SetAttribute` | src/phpDocumentor/GraphViz/Attributes.php:23-28 | The store is the store-level `setAttribute` of the old one, and the name now reads back as the attribute just set. |
| `Nodes.Node.GetAttribute` | src/phpDocumentor/GraphViz/Attributes.php:33-40 | The result is the store-level `getAttribute` of the store, whose contract states it. |
| `Nodes.Node.Call` | src/phpDocumentor/GraphViz/Attributes.php:59-72 | The node's magic call is the store's `__call`, and it keeps the names distinct. |
| `Nodes.Node.ToString` | src/phpDocumentor/GraphViz/Node.php:91-107 | The rendering loop and join give exactly the node's text. |
| `Edges.EdgeText` | src/phpDocumentor/GraphViz/Edge.php:84-101 | Both quoted names around ` -> `, then the attribute block. `EdgeTextNamesSource`, `EdgeTextNamesTarget` and `EdgeTextDeterminesEndpoints` state what it promises. |
| `Edges.EdgeTextNamesSource` | src/phpDocumentor/GraphViz/Edge.php:93-97 | An edge's text opens with a quoted token that reads back as exactly the source node's name. |
| `Edges.EdgeTextNamesTarget` | src/phpDocumentor/GraphViz/Edge.php:94-99 | Then come ` -> ` and a quoted token that reads back as exactly the target node's name, then the attribute block. |
| `Edges.EdgeTextDeterminesEndpoints` | src/phpDocumentor/GraphViz/Edge.php:84-101 | Edges render alike only between equally named endpoints, so renaming a linked node changes the edge's text. |
| `Edges.EdgeTextExample` | src/phpDocumentor/GraphViz/Edge.php:96-100 | An edge from `a` to `b` without attributes. |
| `Edges.Edge.constructor` | src/phpDocumentor/GraphViz/Edge.php:45-49 | The edge holds the very nodes it was given, and no attributes. |
| `Edges.Edge.Create` | src/phpDocumentor/GraphViz/Edge.php:60-63 | `create` gives the same state as the constructor. |
| `Edges.Edge.SetAttribute` | src/phpDocumentor/GraphViz/Attributes.php:23-28 | The store is the store-level `setAttribute` of the old one, and the name reads back as the attribute just set. |
| `Edges.Edge.GetAttribute` | src/phpDocumentor/GraphViz/Attributes.php:33-40 | The result is the store-level `getAttribute` of the store, whose contract states it. |
| `Edges.Edge.Call` | src/phpDocumentor/GraphViz/Attributes.php:59-72 | The edge's magic call is the store's `__call`. |
| `Edges.Edge.ToString` | src/phpDocumentor/GraphViz/Edge.php:84-101 | The rendering loop and join give exactly the edge's text. |
| `Graphs.ParseGraphType` | src/phpDocumentor/GraphViz/Graph.php:384 | Exactly `digraph`, `graph` and `subgraph` are accepted, each as the type whose keyword it is. |
| `Graphs.Header` | src/phpDocumentor/GraphViz/Graph.php:141-144 | `strict ` when the graph is strict, then the type keyword. `EmptyGraphText` states it for an empty graph. |
| `Graphs.GraphText` | src/phpDocumentor/GraphViz/Graph.php:143-147 | The header, the quoted name and the body between braces. `EmptyGraphText` and `BodyWithoutCollisions` state it. |
| `Graphs.AttributeEntries` | src/phpDocumentor/GraphViz/Graph.php:126-131 | `array_merge` sees each graph attribute as its line under its name, in order. |
| `Graphs.EdgeTexts` | src/phpDocumentor/GraphViz/Graph.php:129 | One edge text per edge, in order. |
| `Graphs.NodeEntries` | src/phpDocumentor/GraphViz/Graph.php:130 | `array_merge` sees each node as its text under its key, in order. |
| `Graphs.PutFindsEveryKey` | src/phpDocumentor/GraphViz/Graph.php:113 | After `$m[$k] = $v`, `$k` reads `v` and every other key reads as before. |
| `Graphs.Graph.ToDot` | src/phpDocumentor/GraphViz/Graph.php:124-148 | `__toString`. `BodyWithoutCollisions` states its body and `EmptyGraphText` the whole text of an empty graph. |
| `Graphs.Graph.Body` | src/phpDocumentor/GraphViz/Graph.php:126-139 | The merged elements, rendered and joined by line breaks. `BodyWithoutCollisions` states it as subgraphs, attributes, edges, nodes. |
| `Graphs.Graph.Elements` | src/phpDocumentor/GraphViz/Graph.php:126-131 | What `array_merge` is given, in order: subgraphs, attributes, edges, nodes. `AttributeEntries`, `EdgeTexts` and `NodeEntries` state the parts. |
| `Graphs.Graph.SubgraphEntries` | src/phpDocumentor/GraphViz/Graph.php:126-127 | One entry per subgraph from the given slot on. |
| `Graphs.Graph.HasGraph` | src/phpDocumentor/GraphViz/Graph.php:285-288 | True exactly when some subgraph is stored under the name. |
| `Graphs.Graph.GetGraph` | src/phpDocumentor/GraphViz/Graph.php:259-262 | The subgraph stored under the name. |
| `Graphs.Graph.NodeNamed` | src/phpDocumentor/GraphViz/Graph.php:98-101 | `__get`: null exactly when no node is stored under the name. Otherwise the node stored under it. |
| `Graphs.Graph.FindNode` | src/phpDocumentor/GraphViz/Graph.php:237-252 | The graph's own node, if it has one, is returned first. Any node found is stored under that name somewhere in the tree. |
| `Graphs.Graph.FindNodeFindsIff` | src/phpDocumentor/GraphViz/Graph.php:237-252 | `findNode` finds a node exactly when some graph of the tree holds one under that name. It returns null otherwise. |
| `Graphs.Graph.FindInSubgraphsFindsIff` | src/phpDocumentor/GraphViz/Graph.php:243-251 | The loop over subgraphs finds a node exactly when one of the remaining subgraphs' trees holds the name. |
| `Graphs.Graph.FindNodeFirstHit` | src/phpDocumentor/GraphViz/Graph.php:243-249 | Without a node of its own, a graph returns what the first subgraph, in insertion order, whose tree holds the name finds. |
| `Graphs.Graph.BodyWithoutCollisions` | src/phpDocumentor/GraphViz/Graph.php:124-139 | With no repeated string key, the body is the subgraphs, then the attribute lines, then the edges, then the nodes, joined by line breaks. |
| `Graphs.Graph.EmptyGraphText` | src/phpDocumentor/GraphViz/Graph.php:141-147 | An empty graph is its header, the quoted name, and braces around an empty line. |
| `Graphs.Graph.constructor` | src/phpDocumentor/GraphViz/Graph.php:41-59 | A new graph is `G`, a `digraph`, not strict, and empty. |
| `Graphs.Graph.Create` | src/phpDocumentor/GraphViz/Graph.php:179-187 | `create` sets the name, and the type `digraph` when directional and `graph` otherwise. The name defaults to `G` and the graph to directional. |
| `Graphs.CreateExample` | src/phpDocumentor/GraphViz/Graph.php:179-187 | `create()` without arguments is the `digraph` named `G`. `create('MyName', false)` is the `graph` named `MyName`. |
| `Graphs.Graph.SetName` | src/phpDocumentor/GraphViz/Graph.php:319-324 | Only the name changes. |
| `Graphs.Graph.SetStrict` | src/phpDocumentor/GraphViz/Graph.php:367-372 | Only the strict flag changes. |
| `Graphs.Graph.GetType` | src/phpDocumentor/GraphViz/Graph.php:275-278 | The type read back is always one of the three accepted names, and names the stored type. |
| `Graphs.Graph.SetType` | src/phpDocumentor/GraphViz/Graph.php:382-394 | An accepted name is stored, and `getType` returns it. Any other name fails with the invalid-type error and leaves the type as it was. |
| `Graphs.Graph.AddGraph` | src/phpDocumentor/GraphViz/Graph.php:162-168 | The child becomes a `subgraph` and is stored under its name, in place of a same-named subgraph. `hasGraph` is then true and `getGraph` returns the child. Other names are untouched, and the tree stays valid. |
| `Graphs.Graph.MagicSet` | src/phpDocumentor/GraphViz/Graph.php:111-116 | `__set` stores the node under the given name, which `__get` then returns. Every other name reads as before. |
| `Graphs.Graph.SetNode` | src/phpDocumentor/GraphViz/Graph.php:336-343 | Intended behaviour: the node is stored under its own name in place of a same-named node, and is itself unchanged. |
| `Graphs.Graph.SetNodeAsWritten` | src/phpDocumentor/GraphViz/Graph.php:338 | As written: the node first gains the attribute `graphRoot`, holding the graph's text at that moment. Then it is stored under its name. |
| `Graphs.Graph.Link` | src/phpDocumentor/GraphViz/Graph.php:302-309 | Intended behaviour: the edge is appended last. Nothing is reordered or removed, and duplicates are kept. |
| `Graphs.Graph.LinkAsWritten` | src/phpDocumentor/GraphViz/Graph.php:304 | As written: the edge first gains the attribute `graphRoot`, holding the graph's text. Then it is appended. |
| `Graphs.Graph.SetAttribute` | src/phpDocumentor/GraphViz/AttributesAware.php:35-40 | The store is the store-level `setAttribute` of the old one, and the name reads back as the attribute just set. The graph stays valid. |
| `Graphs.Graph.GetAttribute` | src/phpDocumentor/GraphViz/AttributesAware.php:26-33 | The result is the store-level `getAttribute` of the store, whose contract states it. Nothing changes. |
| `Graphs.Graph.Call` | src/phpDocumentor/GraphViz/Graph.php:78-89 | A graph's magic call is the graph-level `__call`, and it keeps the graph valid. |
| `Graphs.GraphCall` | src/phpDocumentor/GraphViz/Graph.php:78-89 | A graph's magic call keeps names distinct and changes the store only for a `set` name. |
| `Graphs.GraphMagicSet` | src/phpDocumentor/GraphViz/Graph.php:80-84 | `setX(v)` stores under the whole of `X` lower-cased and returns the graph. |
| `Graphs.GraphMagicGet` | src/phpDocumentor/GraphViz/Graph.php:80-88 | `getX()` reads the whole of `X` lower-cased: the attribute, or `AttributeNotFound` naming it. Nothing changes. |
| `Graphs.OtherGraphCallsDoNothing` | src/phpDocumentor/GraphViz/Graph.php:78-89 | Any other name returns null and changes nothing. |
| `Graphs.GraphRootIsAnAttribute` | src/phpDocumentor/GraphViz/Attributes.php:61-65 | On a node or an edge, `setGraphRoot(text)` is the magic setter for the attribute `graphRoot`. |

## Left out

- `Graph::export` and `Graph::setPath`: they write a temporary file, run the `dot` program and consult the file system.
- The PHPStan reflection extensions: they are static-analysis glue with no run-time behaviour.
- `GraphAware` and the owner of an `Attribute`: rendering never reads the owner.
- The getters `getKey`, `getValue`, `getName`, `getFrom`, `getTo`, `getType` and `isStrict`: they are plain reads of the fields, which the model reads directly.
- Aliasing of the returned attribute: `getAttribute` returns a key/value snapshot. In PHP it returns the stored `Attribute` object, whose later `setValue` would change the store.
- Case mapping covers ASCII only. Multibyte case mapping in `mb_strtolower` is not modelled.
- `PHP_EOL` is fixed as a line feed.
- Casting a non-string argument of a magic setter, and a magic setter called with no argument, are not modelled. The argument arrives as a string.
- `AttributeStore.SetAttribute`, `Nodes.Node.SetAttribute`, `Edges.Edge.SetAttribute`: the value arrives as a string. PHP also accepts an integer, a float or a `Stringable` and casts it with `(string)`; that cast is not modelled.
- PHP turns an integer-like attribute or node name into an integer key. In the stores this is not modelled: reads and writes convert the key alike, so nothing observable changes. The renumbering this causes in `array_merge` is modelled (`PhpArrays.MergeKey`).
- `Graphs.Graph.GetGraph`: a missing name is a precondition. PHP fails with an undefined-index error there.
- `Graphs.Graph.Valid`: the graph's attribute names must be distinct, and the subgraph relation must be a tree (`TreeValid`). A graph added to itself or to one of its own subgraphs makes PHP's rendering recurse without end, and is excluded.
- `Graphs.Graph.AddGraph`: the parent's ghost footprint covers the child as it was when added. Changing a subgraph's nodes or edges afterwards needs the parent's footprint refreshed, which the model does not do.
- `DotAttribute.EncodeSpecialsAsWritten`: its own contract is only a length bound. What it does is stated by `EncodeSpecialsAgreesAwayFromPairs` and `EncodeSpecialsAsWrittenBreaksQuoting`.
- `DotAttribute.EncodeSpecials`: its own contract is only a length bound. `EncodeCopies`, `EncodeEscapes` and `EncodeKeepsPair` restate its definition one case at a time. Its guarantees are `EncodeSpecialsQuotable`, `EncodeSpecialsOnlyAddsBackslashes`, `EncodeSpecialsKeepsEscStrings` and `EncodeSpecialsAgreesAwayFromPairs`.
- `Graphs.Graph.SubgraphEntries`: its contract states only the number of entries. Their contents come from its body.
- `DotAttribute.RenderValue`: it uses the corrected `encodeSpecials`, and so do `AttributeText`, `AttributeStore.Texts` and `Lines`, `NodeText`, `EdgeText` and `Graph.ToDot`. On a value with a `\\` pair followed by nothing or by a character other than an escString letter, they differ from the code. `RenderValueAsWritten` models the code. `RenderValueAgreesAwayFromPairs` states where the two agree, and `RenderValueAsWrittenClosesEarly` shows a value where they differ.
- `DotAttribute.RenderedValueIsOneToken`: it holds for the corrected rendering only. The code's rendering of `\\"` is not one token (`RenderValueAsWrittenClosesEarly`).
- `DotAttribute.IsValueContainingSpecials`, `DotAttribute.IsValueInHtml`, `DotAttribute.AttributeText`, `Nodes.NodeText`, `Nodes.AttributeBlock`, `Edges.EdgeText`, `Graphs.Header`, `Graphs.GraphText`, `Graphs.Graph.ToDot`, `Graphs.Graph.Body` and `Graphs.Graph.Elements`: they have no contract of their own. The lemmas named in their rows state what they promise.
- `Graphs.Graph.FindNode`: its own contract states only the own-node case and where a hit comes from. Found-iff-held and first-hit order are the separate lemmas `FindNodeFindsIff` and `FindNodeFirstHit`.
- Literal examples of a graph's magic getter, such as `getNotExisting` reading `notexisting`, are covered by `GraphMagicGet` for every suffix rather than spelled out.

## Findings

| source | as written | input that shows it | evidently intended | confidence | as-written member | corrected member |
|---|---|---|---|---|---|---|
| src/phpDocumentor/GraphViz/Attribute.php:133 | The regex tests every position again. The second backslash of a `\\` pair, when nothing or a non-escString letter follows it, gets its own extra backslash. | The value `\\` (two backslashes) is written as three backslashes. Inside quotes, the closing quote is then read as escaped (`EncodeSpecialsAsWrittenBreaksQuoting`). The value `\\"` is written as four backslashes and a bare quote, which closes the token early (`RenderValueAsWrittenClosesEarly`). | A `\\` pair is an escString sequence and is kept whole, so every encoded value stays one quoted token (`EncodeSpecialsQuotable`, `RenderedValueIsOneToken`). Tests keep double backslashes unchanged. The attribute, node, edge and graph texts are built on the corrected encoder (`RenderValue`). The code's rendering is `RenderValueAsWritten`. | not executed | `DotAttribute.EncodeSpecialsAsWritten` | `DotAttribute.EncodeSpecials` |
| src/phpDocumentor/GraphViz/Graph.php:338 | `setNode` and `link` call `setGraphRoot` on the node or edge. Neither class declares it, so the magic `__call` stores the graph's text as an attribute `graphRoot`. | Any node not yet holding `graphRoot` that is given to `setNode`: its text gains a `graphRoot=` line (`NewAttributeChangesText`). `link` does the same to an edge (`LinkAsWritten`). | The node or edge is stored unchanged, with the graph recorded only as its owner. | not executed | `Graphs.Graph.SetNodeAsWritten` | `Graphs.Graph.SetNode` |
