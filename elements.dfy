/** The element resolver (`_forEachElements`): what the `elements` argument
    of every public operation stands for. */
module Elements {
  import opened Dom

  /** The `elements` argument: a selector string, an array-like collection
      (an array or a NodeList, identified by `ref`), or a single element. */
  datatype ElementsArg =
    | Selector(text: string)
    | Collection(ref: nat, items: seq<NodeId>)
    | Single(node: NodeId)

  /** The nodes `ids`, in order, as targets. */
  function Nodes(ids: seq<NodeId>): (r: seq<Target>)
    ensures |r| == |ids| && AllNodes(r)
    ensures forall k :: 0 <= k < |r| ==> r[k].id == ids[k]
  {
    seq(|ids|, k requires 0 <= k < |ids| => Node(ids[k]))
  }

  /** The list the per-element callback runs over: a string goes through
      `query` on the whole document; a collection with a non-zero length is
      used as it is; anything else, a zero-length collection included, is
      wrapped as a one-element list. */
  function Resolve(tree: Tree, elements: ElementsArg): (r: seq<Target>)
    ensures elements.Selector? ==>
              AllNodes(r) && |r| == |tree.query(elements.text, WholeDocument)|
              && forall k :: 0 <= k < |r| ==> r[k].id == tree.query(elements.text, WholeDocument)[k]
    ensures elements.Collection? && elements.items != [] ==>
              AllNodes(r) && |r| == |elements.items|
              && forall k :: 0 <= k < |r| ==> r[k].id == elements.items[k]
    ensures elements.Collection? && elements.items == [] ==> r == [EmptyCollection(elements.ref)]
    ensures elements.Single? ==> r == [Node(elements.node)]
    ensures AllNodes(r) <==> !(elements.Collection? && elements.items == [])
    ensures AllNodes(r) || |r| == 1
  {
    if elements.Selector? then Nodes(tree.query(elements.text, WholeDocument))
    else if elements.Collection? then
      if |elements.items| > 0 then Nodes(elements.items)
      else
        var wrapped := [EmptyCollection(elements.ref)];
        assert !wrapped[0].Node?;
        wrapped
    else [Node(elements.node)]
  }
}
