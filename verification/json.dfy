/** The decoded JSON body of a keys-API response, reduced to the members the
    client reads. An optional member is `None` both when it is missing and
    when it is `null`: PHP's `isset` does not tell the two apart. */
module Json {
  import opened Wrappers

  /** The `nodes` member of a node: not set, or an array of child nodes. */
  datatype Children = Absent | Present(items: seq<Node>)

  /** One node object: `key`, `dir`, `value` and `nodes`. */
  datatype Node = Node(key: Option<string>, dir: Option<bool>, value: Option<string>, nodes: Children)

  /** The top-level response object and its `node` member. */
  datatype Body = Body(node: Option<Node>)

  /** `isset($node->dir) && $node->dir`. */
  predicate IsDir(n: Node) {
    n.dir == Some(true)
  }

  /** `$result->node`, reading through a body that failed to decode. */
  function NodeOf(body: Option<Body>): Option<Node> {
    match body
    case Some(b) => b.node
    case None => None
  }
}
