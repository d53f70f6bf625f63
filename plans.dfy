/** What the attach operations (`_addDirect`, `_addDelegated`, `once`) and
    `remove` do to the registry and to the native listener lists, stated as
    functions of the resolved elements and the parsed event names. */
module Plans {
  import opened Dom
  import opened Registry

  /** The records one element gets: one per event name, all with the same
      wrapper. */
  function Row(element: Target, names: seq<string>, handler: nat, serial: nat): (row: seq<Entry>)
    ensures |row| == |names|
    ensures forall j :: 0 <= j < |row| ==>
              row[j] == Entry(element, names[j], Handler(handler), Wrapper(serial))
  {
    seq(|names|, j requires 0 <= j < |names| => Entry(element, names[j], Handler(handler), Wrapper(serial)))
  }

  /** The records an attach call adds, element by element and, within an
      element, name by name; the `i`-th element's wrapper is `base + i`. */
  function Planned(items: seq<Target>, names: seq<string>, handler: nat, base: nat): (planned: seq<Entry>)
    ensures forall k :: 0 <= k < |planned| ==> planned[k].element in items
  {
    if items == [] then []
    else Planned(items[..|items| - 1], names, handler, base)
         + Row(items[|items| - 1], names, handler, base + |items| - 1)
  }

  /** An (element, event name) pair visited by `remove`. */
  datatype Pair = Pair(element: Target, eventName: string)

  function RowPairs(element: Target, names: seq<string>): (row: seq<Pair>)
    ensures |row| == |names| && forall j :: 0 <= j < |row| ==> row[j] == Pair(element, names[j])
  {
    seq(|names|, j requires 0 <= j < |names| => Pair(element, names[j]))
  }

  /** The pairs the nested element and name loops visit, in order. */
  function Pairs(items: seq<Target>, names: seq<string>): seq<Pair> {
    if items == [] then []
    else Pairs(items[..|items| - 1], names) + RowPairs(items[|items| - 1], names)
  }

  /** The native listener a record's wrapper stands for. */
  function NativeOf(e: Entry): NativeEntry
    requires e.element.Node?
  {
    NativeEntry(e.element.id, e.eventName, e.wrapper)
  }

  function NativesOf(es: seq<Entry>): (ns: seq<NativeEntry>)
    requires forall k :: 0 <= k < |es| ==> es[k].element.Node?
    ensures |ns| == |es| && forall k :: 0 <= k < |es| ==> ns[k] == NativeOf(es[k])
  {
    seq(|es|, k requires 0 <= k < |es| => NativeOf(es[k]))
  }

  /** Every planned entry is for a node when every element is one. */
  lemma PlannedNodes(items: seq<Target>, names: seq<string>, handler: nat, base: nat)
    requires AllNodes(items)
    ensures forall k :: 0 <= k < |Planned(items, names, handler, base)| ==>
              Planned(items, names, handler, base)[k].element.Node?
  {
    var planned := Planned(items, names, handler, base);
    forall k | 0 <= k < |planned| ensures planned[k].element.Node? {
      var m :| 0 <= m < |items| && items[m] == planned[k].element;
    }
  }

  /** The native listeners the planned records' wrappers stand for. */
  function PlannedNatives(items: seq<Target>, names: seq<string>, handler: nat, base: nat): seq<NativeEntry>
    requires AllNodes(items)
  {
    PlannedNodes(items, names, handler, base);
    NativesOf(Planned(items, names, handler, base))
  }

  lemma MulSucc(n: nat, m: nat)
    requires 0 < n
    ensures (n - 1) * m + m == n * m
  {
  }

  lemma {:induction false} MulStep(i: nat, n: nat, m: nat)
    requires i < n
    ensures i * m + m <= n * m
    decreases n - i
  {
    if i + 1 < n {
      MulStep(i + 1, n, m);
      MulSucc(n, m);
    } else {
      MulSucc(n, m);
    }
  }

  /** An attach call plans |elements| × |names| records. */
  lemma {:induction false} PlannedLength(items: seq<Target>, names: seq<string>, handler: nat, base: nat)
    ensures |Planned(items, names, handler, base)| == |items| * |names|
  {
    if items != [] {
      PlannedLength(items[..|items| - 1], names, handler, base);
      MulSucc(|items|, |names|);
    }
  }

  /** Planned records are element-major: the record at `i * |names| + j`
      is for element `i`, name `j`, the caller's handler and element `i`'s
      wrapper. */
  lemma {:induction false} PlannedAt(items: seq<Target>, names: seq<string>, handler: nat, base: nat, i: nat, j: nat)
    requires i < |items| && j < |names|
    ensures i * |names| + j < |Planned(items, names, handler, base)|
    ensures Planned(items, names, handler, base)[i * |names| + j]
            == Entry(items[i], names[j], Handler(handler), Wrapper(base + i))
  {
    var n, m := |items|, |names|;
    var init := items[..n - 1];
    var prior := Planned(init, names, handler, base);
    var row := Row(items[n - 1], names, handler, base + n - 1);
    assert Planned(items, names, handler, base) == prior + row;
    PlannedLength(init, names, handler, base);
    MulSucc(n, m);
    var k := i * m + j;
    if i < n - 1 {
      PlannedAt(init, names, handler, base, i, j);
      MulStep(i, n - 1, m);
      assert k < |prior|;
      assert init[i] == items[i];
    } else {
      assert k == (n - 1) * m + j;
      assert (prior + row)[k] == row[j];
    }
  }

  /** The planned records and the pairs `remove` visits line up one to one:
      same element, same name, the caller's handler as original, and a
      wrapper numbered from `base` up. */
  lemma {:induction false} PlannedPairs(items: seq<Target>, names: seq<string>, handler: nat, base: nat)
    ensures var planned, pairs := Planned(items, names, handler, base), Pairs(items, names);
            |planned| == |pairs| &&
            forall k :: 0 <= k < |planned| ==>
              planned[k].element == pairs[k].element && planned[k].eventName == pairs[k].eventName
              && planned[k].original == Handler(handler)
              && planned[k].wrapper.Wrapper? && base <= planned[k].wrapper.serial
              && planned[k].element in items && planned[k].eventName in names
  {
    if items != [] {
      var init := items[..|items| - 1];
      PlannedPairs(init, names, handler, base);
    }
  }

  /** The registry, the native listener lists and whether a TypeError has
      been thrown, as `remove` goes along. */
  datatype Removal = Removal(records: seq<ListenerRecord>, listeners: seq<NativeEntry>, threw: bool)

  /** One pass of `remove`'s inner loop. A target that is not a node throws
      at its removeEventListener call, before the registry is touched. */
  function RemoveStep(s: Removal, p: Pair, handler: Callback): (r: Removal)
    ensures multiset(r.records) <= multiset(s.records)
    ensures forall y :: y in r.listeners ==> y in s.listeners
    ensures r.threw <==> s.threw || !p.element.Node?
  {
    if s.threw then s
    else if !p.element.Node? then s.(threw := true)
    else
      var listener := FindFirst(s.records, p.element, p.eventName, handler);
      if listener != null then
        Removal(RemoveFirst(s.records, listener),
                Detach(s.listeners, NativeEntry(p.element.id, p.eventName, listener.wrapper)), false)
      else
        s.(listeners := Detach(s.listeners, NativeEntry(p.element.id, p.eventName, handler)))
  }

  /** `remove` over a whole sequence of pairs. */
  function RemoveAll(s: Removal, pairs: seq<Pair>, handler: Callback): Removal {
    if pairs == [] then s
    else RemoveStep(RemoveAll(s, pairs[..|pairs| - 1], handler), pairs[|pairs| - 1], handler)
  }

  lemma RemoveAllSnoc(s: Removal, pairs: seq<Pair>, p: Pair, handler: Callback)
    ensures RemoveAll(s, pairs + [p], handler) == RemoveStep(RemoveAll(s, pairs, handler), p, handler)
  {
    assert (pairs + [p])[..|pairs|] == pairs;
  }

  /** Once a TypeError is thrown nothing further happens. */
  lemma {:induction false} ThrownStays(s: Removal, pairs: seq<Pair>, handler: Callback)
    requires s.threw
    ensures RemoveAll(s, pairs, handler) == s
  {
    if pairs != [] {
      ThrownStays(s, pairs[..|pairs| - 1], handler);
    }
  }

  lemma {:induction false} RemoveAllAppend(s: Removal, a: seq<Pair>, b: seq<Pair>, handler: Callback)
    ensures RemoveAll(s, a + b, handler) == RemoveAll(RemoveAll(s, a, handler), b, handler)
  {
    if b == [] {
      assert a + b == a;
    } else {
      var b', last := b[..|b| - 1], b[|b| - 1];
      SnocSplit(b);
      SnocAssoc(a, b', last);
      RemoveAllSnoc(s, a + b', last, handler);
      RemoveAllAppend(s, a, b', handler);
      RemoveAllSnoc(RemoveAll(s, a, handler), b', last, handler);
    }
  }

  lemma SnocSplit<T>(b: seq<T>)
    requires b != []
    ensures b == b[..|b| - 1] + [b[|b| - 1]]
  {
  }

  lemma SnocAssoc<T>(a: seq<T>, b: seq<T>, x: T)
    ensures a + (b + [x]) == (a + b) + [x]
  {
  }

  /** `remove` never adds: every record and native listener left was there
      before. */
  lemma {:induction false} RemoveAllShrinks(s: Removal, pairs: seq<Pair>, handler: Callback)
    ensures var r := RemoveAll(s, pairs, handler);
            multiset(r.records) <= multiset(s.records)
            && forall y :: y in r.listeners ==> y in s.listeners
  {
    if pairs != [] {
      RemoveAllShrinks(s, pairs[..|pairs| - 1], handler);
    }
  }

  /** A pass of `remove` whose record is the first one after `R`: that
      record goes and its wrapper is detached. */
  lemma RemoveStepFinds(R: seq<ListenerRecord>, rest: seq<ListenerRecord>, D: seq<NativeEntry>, p: Pair, handler: Callback)
    requires rest != [] && p.element.Node?
    requires Keyed(rest[0], p.element, p.eventName, handler) && rest[0] !in R
    requires forall r :: r in R ==> !Keyed(r, p.element, p.eventName, handler)
    ensures RemoveStep(Removal(R + rest, D, false), p, handler)
            == Removal(R + rest[1..], Detach(D, NativeEntry(p.element.id, p.eventName, rest[0].wrapper)), false)
  {
    var s := R + rest;
    assert s[|R|] == rest[0] && s[..|R|] == R;
    forall m | 0 <= m < |R|
      ensures !Keyed(s[m], p.element, p.eventName, handler)
    {
      assert s[m] == R[m] && R[m] in R;
    }
    FindFirstAt(s, p.element, p.eventName, handler, |R|);
    RemoveFirstAt(s, rest[0], |R|);
    assert s[|R| + 1..] == rest[1..];
  }

  /** A pass of `remove` that finds no record detaches the handler it was
      given and leaves the registry alone. */
  lemma RemoveStepMisses(R: seq<ListenerRecord>, D: seq<NativeEntry>, p: Pair, handler: Callback)
    requires p.element.Node?
    requires forall r :: r in R ==> !Keyed(r, p.element, p.eventName, handler)
    ensures RemoveStep(Removal(R, D, false), p, handler)
            == Removal(R, Detach(D, NativeEntry(p.element.id, p.eventName, handler)), false)
  {
    forall m | 0 <= m < |R| ensures !Keyed(R[m], p.element, p.eventName, handler) {
      assert R[m] in R;
    }
  }

  /** The state after `remove` has visited the first `k` pairs, when the
      `k`-th pair is served by the record `B[k]`, whose wrapper is attached
      as `natives[k]`, and no record of `R` is keyed by any of the pairs. */
  lemma {:induction false} RestorePrefix(
    R: seq<ListenerRecord>, B: seq<ListenerRecord>, X: seq<NativeEntry>,
    pairs: seq<Pair>, natives: seq<NativeEntry>, handler: Callback, k: nat)
    requires |B| == |pairs| == |natives| && k <= |pairs|
    requires forall i :: 0 <= i < |pairs| ==>
               pairs[i].element.Node? && B[i] !in R
               && Keyed(B[i], pairs[i].element, pairs[i].eventName, handler)
               && natives[i] == NativeEntry(pairs[i].element.id, pairs[i].eventName, B[i].wrapper)
    requires forall r, i :: r in R && 0 <= i < |pairs| ==> !Keyed(r, pairs[i].element, pairs[i].eventName, handler)
    ensures RemoveAll(Removal(R + B, X, false), pairs[..k], handler)
            == Removal(R + B[k..], DetachAll(X, natives[..k]), false)
  {
    if k == 0 {
      assert B[0..] == B && pairs[..0] == [] && natives[..0] == [];
    } else {
      RestorePrefix(R, B, X, pairs, natives, handler, k - 1);
      var p := pairs[k - 1];
      forall r | r in R ensures !Keyed(r, p.element, p.eventName, handler) {
        assert !Keyed(r, pairs[k - 1].element, pairs[k - 1].eventName, handler);
      }
      RestoreStep(R, B, X, pairs, natives, handler, k - 1);
    }
  }

  /** The state after `remove` has visited every pair. */
  lemma RestoreAll(
    R: seq<ListenerRecord>, B: seq<ListenerRecord>, X: seq<NativeEntry>,
    pairs: seq<Pair>, natives: seq<NativeEntry>, handler: Callback)
    requires |B| == |pairs| == |natives|
    requires forall i :: 0 <= i < |pairs| ==>
               pairs[i].element.Node? && B[i] !in R
               && Keyed(B[i], pairs[i].element, pairs[i].eventName, handler)
               && natives[i] == NativeEntry(pairs[i].element.id, pairs[i].eventName, B[i].wrapper)
    requires forall r, i :: r in R && 0 <= i < |pairs| ==> !Keyed(r, pairs[i].element, pairs[i].eventName, handler)
    ensures RemoveAll(Removal(R + B, X, false), pairs, handler) == Removal(R, DetachAll(X, natives), false)
  {
    RestorePrefix(R, B, X, pairs, natives, handler, |pairs|);
    assert pairs[..|pairs|] == pairs;
    assert natives[..|natives|] == natives;
    assert B[|B|..] == [] && R + [] == R;
  }

  lemma TakeSnoc<T>(s: seq<T>, k: nat)
    requires 0 < k <= |s|
    ensures s[..k] == s[..k - 1] + [s[k - 1]]
  {
  }

  lemma RestoreStep(
    R: seq<ListenerRecord>, B: seq<ListenerRecord>, X: seq<NativeEntry>,
    pairs: seq<Pair>, natives: seq<NativeEntry>, handler: Callback, k: nat)
    requires k < |B| && k < |pairs| && k < |natives|
    requires pairs[k].element.Node? && B[k] !in R && Keyed(B[k], pairs[k].element, pairs[k].eventName, handler)
    requires natives[k] == NativeEntry(pairs[k].element.id, pairs[k].eventName, B[k].wrapper)
    requires forall r :: r in R ==> !Keyed(r, pairs[k].element, pairs[k].eventName, handler)
    requires RemoveAll(Removal(R + B, X, false), pairs[..k], handler)
             == Removal(R + B[k..], DetachAll(X, natives[..k]), false)
    ensures RemoveAll(Removal(R + B, X, false), pairs[..k + 1], handler)
            == Removal(R + B[k + 1..], DetachAll(X, natives[..k + 1]), false)
  {
    var p, x := pairs[k], natives[k];
    var rest := B[k..];
    var D := DetachAll(X, natives[..k]);
    TakeSnoc(pairs, k + 1);
    TakeSnoc(natives, k + 1);
    assert rest[0] == B[k] && rest[1..] == B[k + 1..];
    RemoveAllSnoc(Removal(R + B, X, false), pairs[..k], p, handler);
    RemoveStepFinds(R, rest, D, p, handler);
    assert (natives[..k] + [x])[..k] == natives[..k];
  }

  /** `add` followed by `remove` with the same elements, names and handler
      gives back the registry and the native listener lists exactly, when
      the handler had no record for those elements and names before and the
      new wrappers were not attached anywhere. */
  lemma RemoveUndoesAttach(
    R: seq<ListenerRecord>, B: seq<ListenerRecord>, L: seq<NativeEntry>,
    items: seq<Target>, names: seq<string>, handler: nat, base: nat)
    requires AllNodes(items)
    requires Keys(B) == Planned(items, names, handler, base)
    requires forall b :: b in B ==> b !in R
    requires forall r :: r in R && r.original == Handler(handler) ==> r.element !in items || r.eventName !in names
    requires forall e :: e in L && e.callback.Wrapper? ==> e.callback.serial < base
    ensures RemoveAll(Removal(R + B, AttachAll(L, PlannedNatives(items, names, handler, base)), false),
                      Pairs(items, names), Handler(handler))
            == Removal(R, L, false)
  {
    var pairs := Pairs(items, names);
    var natives := NativesOf(Planned(items, names, handler, base));
    assert PlannedNatives(items, names, handler, base) == natives;
    PlannedServes(R, B, items, names, handler, base);
    RestoreAll(R, B, AttachAll(L, natives), pairs, natives, Handler(handler));
    forall k | 0 <= k < |natives| ensures natives[k] !in L {
      assert natives[k].callback.Wrapper? && base <= natives[k].callback.serial;
    }
    DetachAllUndoesAttachAll(L, natives);
  }

  /** The records an attach call made serve the pairs `remove` visits one
      to one, and no earlier record serves any of them. */
  lemma PlannedServes(
    R: seq<ListenerRecord>, B: seq<ListenerRecord>,
    items: seq<Target>, names: seq<string>, handler: nat, base: nat)
    requires AllNodes(items)
    requires Keys(B) == Planned(items, names, handler, base)
    requires forall b :: b in B ==> b !in R
    requires forall r :: r in R && r.original == Handler(handler) ==> r.element !in items || r.eventName !in names
    ensures var pairs, natives := Pairs(items, names), NativesOf(Planned(items, names, handler, base));
            |B| == |pairs| == |natives|
            && (forall i :: 0 <= i < |pairs| ==>
                  pairs[i].element.Node? && B[i] !in R
                  && Keyed(B[i], pairs[i].element, pairs[i].eventName, Handler(handler))
                  && natives[i] == NativeEntry(pairs[i].element.id, pairs[i].eventName, B[i].wrapper)
                  && natives[i].callback.Wrapper? && base <= natives[i].callback.serial)
            && (forall r, i :: r in R && 0 <= i < |pairs| ==>
                  !Keyed(r, pairs[i].element, pairs[i].eventName, Handler(handler)))
  {
    PlannedPairs(items, names, handler, base);
    var pairs := Pairs(items, names);
    var natives := NativesOf(Planned(items, names, handler, base));
    forall i | 0 <= i < |pairs|
      ensures pairs[i].element.Node? && B[i] !in R
              && Keyed(B[i], pairs[i].element, pairs[i].eventName, Handler(handler))
              && natives[i] == NativeEntry(pairs[i].element.id, pairs[i].eventName, B[i].wrapper)
              && natives[i].callback.Wrapper? && base <= natives[i].callback.serial
    {
      assert KeyOf(B[i]) == Keys(B)[i];
      assert B[i] in B;
    }
  }

  /** The native listeners a wrapper has on one node, one per name. */
  function OwnEntries(node: NodeId, names: seq<string>, callback: Callback): (es: seq<NativeEntry>)
    ensures |es| == |names|
    ensures forall j :: 0 <= j < |es| ==> es[j] == NativeEntry(node, names[j], callback)
  {
    seq(|names|, j requires 0 <= j < |names| => NativeEntry(node, names[j], callback))
  }

  /** `remove` called with a wrapper: no record has a wrapper as its
      original, so the registry is left alone and the wrapper itself is
      detached for every name. */
  lemma {:induction false} WrapperRemoveMisses(
    R: seq<ListenerRecord>, L: seq<NativeEntry>, node: NodeId, names: seq<string>, serial: nat, j: nat)
    requires forall r :: r in R ==> r.original.Handler?
    requires j <= |names|
    ensures RemoveAll(Removal(R, L, false), RowPairs(Node(node), names)[..j], Wrapper(serial))
            == Removal(R, DetachAll(L, OwnEntries(node, names, Wrapper(serial))[..j]), false)
  {
    var pairs := RowPairs(Node(node), names);
    var own := OwnEntries(node, names, Wrapper(serial));
    if j > 0 {
      WrapperRemoveMisses(R, L, node, names, serial, j - 1);
      var D := DetachAll(L, own[..j - 1]);
      var p, x := pairs[j - 1], own[j - 1];
      assert p == Pair(Node(node), names[j - 1]) && x == NativeEntry(node, names[j - 1], Wrapper(serial));
      forall r | r in R ensures !Keyed(r, p.element, p.eventName, Wrapper(serial)) {
        assert r.original.Handler?;
      }
      TakeSnoc(pairs, j);
      RemoveAllSnoc(Removal(R, L, false), pairs[..j - 1], p, Wrapper(serial));
      RemoveStepMisses(R, D, p, Wrapper(serial));
      TakeSnoc(own, j);
      DetachAllSnoc(L, own[..j - 1], x);
    }
  }

  /** A single node's pairs are one row. */
  lemma PairsOfOne(x: Target, names: seq<string>)
    ensures Pairs([x], names) == RowPairs(x, names)
  {
    assert [x][..0] == [];
  }
}
