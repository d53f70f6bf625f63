/** What the library needs from the browser: a tree of nodes reached through
    `parentElement`, a selector query, an optional native `matches`, and the
    per-node native listener lists behind addEventListener and
    removeEventListener. */
module Dom {
  import opened Wrappers

  /** A node of the document (an element, or the document itself). */
  type NodeId = nat

  /** Where a selector query looks: the whole document or below one node. */
  datatype Scope = WholeDocument | Within(root: NodeId)

  /** The document. `parent` is `parentElement` (absent at the top of the
      tree); `depth` witnesses that the tree has no cycles; `query` is
      `querySelectorAll`; `nativeMatches` is `Element.prototype.matches` or a
      vendor-prefixed variant, when the browser has one. */
  datatype Tree = Tree(
    parent: map<NodeId, NodeId>,
    depth: NodeId -> nat,
    query: (string, Scope) -> seq<NodeId>,
    nativeMatches: Option<(NodeId, string) -> bool>)
  {
    /** Every step to a parent goes strictly up. */
    ghost predicate WellFormed() {
      forall n :: n in parent ==> depth(parent[n]) < depth(n)
    }

    /** The scope of the fallback's query, `(node.parentNode || document)`,
        read through `parent`: a node without a parent element is queried
        against the whole document. A node whose parent is the document
        itself gets the same answer either way; a node whose parent is a
        document fragment or a shadow root is not distinguished here. */
    function ParentScope(n: NodeId): Scope {
      if n in parent then Within(parent[n]) else WholeDocument
    }
  }

  /** One item of a resolved element list: a node, or a zero-length
      collection that the resolver wrapped as if it were a single element. */
  datatype Target = Node(id: NodeId) | EmptyCollection(ref: nat)

  predicate AllNodes(targets: seq<Target>) {
    forall k :: 0 <= k < |targets| ==> targets[k].Node?
  }

  /** A function handed to addEventListener: a caller's handler, or a
      wrapper closure the library built (numbered in creation order). */
  datatype Callback = Handler(id: nat) | Wrapper(serial: nat)

  /** One native listener: `callback` listens for `eventType` on `node`. */
  datatype NativeEntry = NativeEntry(node: NodeId, eventType: string, callback: Callback)

  /** addEventListener: a listener identical to one already present is not
      added a second time. */
  function Attach(listeners: seq<NativeEntry>, x: NativeEntry): (r: seq<NativeEntry>)
    ensures forall y :: y in r <==> y in listeners || y == x
    ensures x in listeners ==> r == listeners
    ensures x !in listeners ==> r == listeners + [x]
  {
    if x in listeners then listeners else listeners + [x]
  }

  /** removeEventListener: the listener is gone, everything else stays. */
  function Detach(listeners: seq<NativeEntry>, x: NativeEntry): (r: seq<NativeEntry>)
    ensures forall y :: y in r <==> y in listeners && y != x
  {
    if listeners == [] then []
    else if listeners[0] == x then Detach(listeners[1..], x)
    else [listeners[0]] + Detach(listeners[1..], x)
  }

  /** Attaching each of `xs` in turn. */
  function AttachAll(listeners: seq<NativeEntry>, xs: seq<NativeEntry>): (r: seq<NativeEntry>)
    ensures forall y :: y in r <==> y in listeners || y in xs
  {
    if xs == [] then listeners
    else Attach(AttachAll(listeners, xs[..|xs| - 1]), xs[|xs| - 1])
  }

  /** Detaching each of `xs` in turn. */
  function DetachAll(listeners: seq<NativeEntry>, xs: seq<NativeEntry>): (r: seq<NativeEntry>)
    ensures forall y :: y in r <==> y in listeners && y !in xs
  {
    if xs == [] then listeners
    else Detach(DetachAll(listeners, xs[..|xs| - 1]), xs[|xs| - 1])
  }

  lemma DetachAllSnoc(listeners: seq<NativeEntry>, xs: seq<NativeEntry>, x: NativeEntry)
    ensures DetachAll(listeners, xs + [x]) == Detach(DetachAll(listeners, xs), x)
  {
    assert (xs + [x])[..|xs|] == xs;
  }

  /** Removing a listener that is not there changes nothing, order included. */
  lemma {:induction false} DetachAbsent(listeners: seq<NativeEntry>, x: NativeEntry)
    requires x !in listeners
    ensures Detach(listeners, x) == listeners
  {
    if listeners != [] {
      DetachAbsent(listeners[1..], x);
      assert [listeners[0]] + listeners[1..] == listeners;
    }
  }

  lemma {:induction false} DetachDistributes(a: seq<NativeEntry>, b: seq<NativeEntry>, x: NativeEntry)
    ensures Detach(a + b, x) == Detach(a, x) + Detach(b, x)
  {
    if a == [] {
      assert a + b == b;
    } else {
      var ab := a + b;
      assert ab[0] == a[0] && ab[1..] == a[1..] + b;
      DetachDistributes(a[1..], b, x);
      if a[0] != x {
        calc {
          Detach(ab, x);
          [a[0]] + Detach(a[1..] + b, x);
          [a[0]] + (Detach(a[1..], x) + Detach(b, x));
          ([a[0]] + Detach(a[1..], x)) + Detach(b, x);
        }
      }
    }
  }

  lemma {:induction false} DetachAllDistributes(a: seq<NativeEntry>, b: seq<NativeEntry>, xs: seq<NativeEntry>)
    ensures DetachAll(a + b, xs) == DetachAll(a, xs) + DetachAll(b, xs)
  {
    if xs != [] {
      var init := xs[..|xs| - 1];
      DetachAllDistributes(a, b, init);
      DetachDistributes(DetachAll(a, init), DetachAll(b, init), xs[|xs| - 1]);
    }
  }

  lemma {:induction false} DetachAllUntouched(listeners: seq<NativeEntry>, xs: seq<NativeEntry>)
    requires forall k :: 0 <= k < |xs| ==> xs[k] !in listeners
    ensures DetachAll(listeners, xs) == listeners
  {
    if xs != [] {
      DetachAllUntouched(listeners, xs[..|xs| - 1]);
      DetachAbsent(listeners, xs[|xs| - 1]);
    }
  }

  /** Attaching keeps what was there in place and adds, after it, only
      entries of `xs` that were not there. */
  lemma {:induction false} AttachAllAppends(listeners: seq<NativeEntry>, xs: seq<NativeEntry>)
    ensures var grown := AttachAll(listeners, xs);
            listeners <= grown &&
            forall y :: y in grown[|listeners|..] ==> y in xs && y !in listeners
  {
    if xs != [] {
      var init := xs[..|xs| - 1];
      var x := xs[|xs| - 1];
      AttachAllAppends(listeners, init);
      var prior := AttachAll(listeners, init);
      var grown := AttachAll(listeners, xs);
      assert grown == prior || (grown == prior + [x] && x !in prior);
      forall y | y in grown[|listeners|..] ensures y in xs && y !in listeners {
        var k :| 0 <= k < |grown| - |listeners| && grown[|listeners|..][k] == y;
        if |listeners| + k < |prior| {
          assert y in prior[|listeners|..];
          assert y in init;
        } else {
          assert y == x;
        }
      }
    }
  }

  lemma NothingLeft(s: seq<NativeEntry>)
    requires forall y :: y !in s
    ensures s == []
  {
    if s != [] {
      HeadIsMember(s);
      assert false;
    }
  }

  lemma HeadIsMember(s: seq<NativeEntry>)
    requires s != []
    ensures s[0] in s
  {
  }

  /** Detaching what was attached, when none of it was there before, gives
      back the listener list exactly. */
  lemma DetachAllUndoesAttachAll(listeners: seq<NativeEntry>, xs: seq<NativeEntry>)
    requires forall k :: 0 <= k < |xs| ==> xs[k] !in listeners
    ensures DetachAll(AttachAll(listeners, xs), xs) == listeners
  {
    var grown := AttachAll(listeners, xs);
    AttachAllAppends(listeners, xs);
    var added := grown[|listeners|..];
    assert grown == listeners + added;
    DetachAllDistributes(listeners, added, xs);
    DetachAllUntouched(listeners, xs);
    NothingLeft(DetachAll(added, xs));
    assert listeners + [] == listeners;
  }

  /** The browser's native listener lists, for the whole document. */
  class Host {
    var listeners: seq<NativeEntry>

    constructor(initial: seq<NativeEntry>)
      ensures listeners == initial
    {
      listeners := initial;
    }

    /** `node.addEventListener(eventType, callback, false)`. */
    method AddEventListener(node: NodeId, eventType: string, callback: Callback)
      modifies this
      ensures listeners == Attach(old(listeners), NativeEntry(node, eventType, callback))
    {
      listeners := Attach(listeners, NativeEntry(node, eventType, callback));
    }

    /** `node.removeEventListener(eventType, callback, false)`. */
    method RemoveEventListener(node: NodeId, eventType: string, callback: Callback)
      modifies this
      ensures listeners == Detach(old(listeners), NativeEntry(node, eventType, callback))
    {
      listeners := Detach(listeners, NativeEntry(node, eventType, callback));
    }
  }
}
