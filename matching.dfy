/** Selector matching (`_matches`) and the walk from an event's target up to
    the nearest element a delegated listener is interested in
    (`_bubbleCheck`). */
module Matching {
  import opened Wrappers
  import opened Dom

  /** The fallback used when the browser has no `matches`: a node matches a
      selector when it is among the nodes the selector finds below the node's
      parent. */
  predicate FallbackMatch(tree: Tree, n: NodeId, selector: string) {
    n in tree.query(selector, tree.ParentScope(n))
  }

  /** `_matches(element, selector)`: the browser's own `matches` when it has
      one, the fallback otherwise. */
  predicate Matches(tree: Tree, n: NodeId, selector: string) {
    if tree.nativeMatches.Some? then tree.nativeMatches.value(n, selector)
    else FallbackMatch(tree, n, selector)
  }

  /** The fallback's backward scan over the query result. */
  method FallbackMatches(tree: Tree, n: NodeId, selector: string) returns (found: bool)
    ensures found <==> n in tree.query(selector, tree.ParentScope(n))
  {
    var potentialMatches := tree.query(selector, tree.ParentScope(n));
    var i := |potentialMatches|;
    i := i - 1;
    while i >= 0 && potentialMatches[i] != n
      invariant -1 <= i < |potentialMatches|
      invariant forall j :: i < j < |potentialMatches| ==> potentialMatches[j] != n
    {
      i := i - 1;
    }
    found := i > -1;
  }

  /** The node followed by its ancestors, through `parentElement`, up to the
      top of the tree. */
  function Chain(tree: Tree, n: NodeId): (chain: seq<NodeId>)
    requires tree.WellFormed()
    ensures |chain| >= 1 && chain[0] == n
    ensures forall k :: 0 < k < |chain| ==> tree.depth(chain[k]) < tree.depth(n)
    decreases tree.depth(n)
  {
    if n in tree.parent then [n] + Chain(tree, tree.parent[n]) else [n]
  }

  /** Each node of the chain is followed by its parent, and the chain ends
      at a node without a parent element. */
  lemma {:induction false} ChainLinks(tree: Tree, n: NodeId)
    requires tree.WellFormed()
    ensures var chain := Chain(tree, n);
            (forall k :: 0 <= k < |chain| - 1 ==>
               chain[k] in tree.parent && chain[k + 1] == tree.parent[chain[k]])
            && chain[|chain| - 1] !in tree.parent
    decreases tree.depth(n)
  {
    if n in tree.parent {
      var p := tree.parent[n];
      ChainLinks(tree, p);
      var chain := Chain(tree, n);
      assert chain[1..] == Chain(tree, p);
    }
  }

  /** `_bubbleCheck(root, target, selector)`. */
  function BubbleCheck(tree: Tree, root: NodeId, target: NodeId, selector: string): (r: Option<NodeId>)
    requires tree.WellFormed()
    ensures r.Some? ==> r.value != root && Matches(tree, r.value, selector)
                        && r.value in Chain(tree, target)
    decreases tree.depth(target)
  {
    if root == target then None
    else if Matches(tree, target, selector) then Some(target)
    else if target in tree.parent then BubbleCheck(tree, root, tree.parent[target], selector)
    else None
  }

  /** Position `k` of the chain is where the walk stops with a match: it is
      not the root and matches, and every node before it is neither the root
      nor a match. */
  predicate FirstHit(tree: Tree, root: NodeId, chain: seq<NodeId>, selector: string, k: nat)
    requires k < |chain|
  {
    chain[k] != root && Matches(tree, chain[k], selector)
    && forall j :: 0 <= j < k ==> chain[j] != root && !Matches(tree, chain[j], selector)
  }

  /** The walk returns the `k`-th node of the chain exactly when that node is
      the first match, reached before the root. */
  lemma {:induction false} BubbleCheckAt(tree: Tree, root: NodeId, target: NodeId, selector: string, k: nat)
    requires tree.WellFormed()
    requires k < |Chain(tree, target)|
    ensures BubbleCheck(tree, root, target, selector) == Some(Chain(tree, target)[k])
            <==> FirstHit(tree, root, Chain(tree, target), selector, k)
    decreases k
  {
    var chain := Chain(tree, target);
    ChainDistinct(tree, target);
    if k > 0 && root != target && !Matches(tree, target, selector) {
      var p := tree.parent[target];
      var rest := Chain(tree, p);
      assert chain[1..] == rest;
      BubbleCheckAt(tree, root, p, selector, k - 1);
      if FirstHit(tree, root, rest, selector, k - 1) {
        forall j | 0 <= j < k
          ensures chain[j] != root && !Matches(tree, chain[j], selector)
        {
          if j > 0 { assert chain[j] == rest[j - 1]; }
        }
      }
      if FirstHit(tree, root, chain, selector, k) {
        forall j | 0 <= j < k - 1
          ensures rest[j] != root && !Matches(tree, rest[j], selector)
        {
          assert rest[j] == chain[j + 1];
        }
      }
    }
  }

  /** The walk returns null exactly when no position of the chain is a first
      match: it ran into the root, or out of parents, before any match. */
  lemma BubbleCheckNull(tree: Tree, root: NodeId, target: NodeId, selector: string)
    requires tree.WellFormed()
    ensures var chain := Chain(tree, target);
            BubbleCheck(tree, root, target, selector).None?
            <==> forall k :: 0 <= k < |chain| ==> !FirstHit(tree, root, chain, selector, k)
  {
    var chain := Chain(tree, target);
    var r := BubbleCheck(tree, root, target, selector);
    if r.Some? {
      var k :| 0 <= k < |chain| && chain[k] == r.value;
      BubbleCheckAt(tree, root, target, selector, k);
    }
    forall k | 0 <= k < |chain| && FirstHit(tree, root, chain, selector, k)
      ensures r.Some?
    {
      BubbleCheckAt(tree, root, target, selector, k);
    }
  }

  /** No node occurs twice on the way up. */
  lemma {:induction false} ChainDistinct(tree: Tree, n: NodeId)
    requires tree.WellFormed()
    ensures var chain := Chain(tree, n);
            forall i, j :: 0 <= i < j < |chain| ==> chain[i] != chain[j]
    decreases tree.depth(n)
  {
    if n in tree.parent {
      var p := tree.parent[n];
      ChainDistinct(tree, p);
      var chain := Chain(tree, n);
      assert chain[1..] == Chain(tree, p);
      forall i, j | 0 <= i < j < |chain| ensures chain[i] != chain[j] {
        if i > 0 {
          assert chain[i] == chain[1..][i - 1] && chain[j] == chain[1..][j - 1];
        }
      }
    }
  }
}
