/** The public API object (`add`/`on`, `once`/`one`, `remove`/`off`) over
    one document: the registry, the browser's native listener lists and the
    wrapper closures the library has made. */
module Events {
  import opened Wrappers
  import opened EventNames
  import opened Dom
  import opened Matching
  import opened Elements
  import opened Registry
  import opened Plans

  /** What a wrapper does when it runs: call the handler on its element,
      call it on the nearest descendant matching a selector, or call it and
      then take itself off. */
  datatype Flavor = Direct | Delegated(selector: string) | OneShot(events: EventsArg)

  /** A wrapper closure: its flavour, the element it was made for, the
      caller's handler it calls and the parsed event names in its scope. */
  datatype Closure = Closure(flavor: Flavor, element: Target, handler: nat, names: seq<string>)

  /** What a public call gives back: the resolved element list (what
      `_forEachElements` returns), undefined (`add` with an argument count
      it does not handle), or a thrown TypeError. */
  datatype Outcome = Returned(elements: seq<Target>) | Undefined | TypeError

  /** The caller's handler run with `this` bound to a node. */
  datatype Call = Call(handler: nat, thisArg: NodeId)

  /** The arguments of `add`: three, four (the third may be null or
      undefined), or some other number. */
  datatype AddArgs =
    | Three(elements: ElementsArg, events: EventsArg, handler: nat)
    | Four(elements: ElementsArg, events: EventsArg, selector: Option<string>, handler: nat)
    | OtherCount

  /** The library's state, as values. */
  datatype State = State(records: seq<ListenerRecord>, listeners: seq<NativeEntry>, closures: seq<Closure>)

  /** An attach call throws when it reaches something that is not a node
      with at least one name to attach. */
  predicate Throws(items: seq<Target>, names: seq<string>) {
    !AllNodes(items) && names != []
  }

  function NewClosures(items: seq<Target>, flavor: Flavor, handler: nat, names: seq<string>): (cs: seq<Closure>)
    ensures |cs| == |items| && forall k :: 0 <= k < |cs| ==> cs[k] == Closure(flavor, items[k], handler, names)
  {
    seq(|items|, k requires 0 <= k < |items| => Closure(flavor, items[k], handler, names))
  }

  /** The state an attach call leaves: one wrapper per element; the planned
      records (only the first, if it threw); the wrappers attached natively
      when every element is a node. */
  ghost predicate Attached(before: State, after: State, items: seq<Target>, names: seq<string>, flavor: Flavor, handler: nat)
  {
    var base := |before.closures|;
    var planned := Planned(items, names, handler, base);
    after.closures == before.closures + NewClosures(items, flavor, handler, names)
    && before.records <= after.records
    && NewRecords(after.records[|before.records|..], before.records)
    && Keys(after.records[|before.records|..])
       == (if Throws(items, names) then [Entry(items[0], names[0], Handler(handler), Wrapper(base))] else planned)
    && after.listeners == (if AllNodes(items) then AttachAll(before.listeners, PlannedNatives(items, names, handler, base)) else before.listeners)
  }

  lemma PairsSnoc(items: seq<Target>, i: nat, names: seq<string>)
    requires i < |items|
    ensures Pairs(items[..i + 1], names) == Pairs(items[..i], names) + RowPairs(items[i], names)
  {
    assert items[..i + 1][..i] == items[..i];
  }

  lemma AttachAllSnoc(listeners: seq<NativeEntry>, xs: seq<NativeEntry>, x: NativeEntry)
    ensures AttachAll(listeners, xs + [x]) == Attach(AttachAll(listeners, xs), x)
  {
    assert (xs + [x])[..|xs|] == xs;
  }

  lemma AllNodesSnoc(items: seq<Target>, i: nat)
    requires i < |items|
    ensures AllNodes(items[..i + 1]) <==> AllNodes(items[..i]) && items[i].Node?
  {
    assert items[..i + 1][i] == items[i];
    assert forall k :: 0 <= k < i ==> items[..i + 1][k] == items[..i][k];
  }

  /** Every record's original is a caller's handler: the library never
      registers a wrapper as an original. */
  predicate OriginalsAreHandlers(records: seq<ListenerRecord>) {
    forall r :: r in records ==> r.original.Handler?
  }

  /** A native listener that is a wrapper runs a closure the library made
      for that very node; a one-shot wrapper is attached only for the names
      it was made for. */
  predicate KnownWrapper(e: NativeEntry, closures: seq<Closure>) {
    e.callback.Wrapper? ==>
      e.callback.serial < |closures|
      && closures[e.callback.serial].element == Node(e.node)
      && e.eventType in closures[e.callback.serial].names
  }

  /** A one-shot wrapper's names are those its raw `events` argument parses
      to, which is what its `off` call parses again. */
  predicate ParsedNames(closures: seq<Closure>) {
    forall s :: 0 <= s < |closures| && closures[s].flavor.OneShot? ==>
      closures[s].names == Names(closures[s].flavor.events)
  }

  lemma ParsedGrow(closures: seq<Closure>, c: Closure)
    requires ParsedNames(closures)
    requires c.flavor.OneShot? ==> c.names == Names(c.flavor.events)
    ensures ParsedNames(closures + [c])
  {
    forall s | 0 <= s < |closures| + 1 && (closures + [c])[s].flavor.OneShot?
      ensures (closures + [c])[s].names == Names((closures + [c])[s].flavor.events)
    {
      if s < |closures| {
        assert (closures + [c])[s] == closures[s];
      }
    }
  }

  predicate WrappersKnown(listeners: seq<NativeEntry>, closures: seq<Closure>) {
    forall e :: e in listeners ==> KnownWrapper(e, closures)
  }

  /** Making more wrappers keeps every attached one known. */
  lemma WrappersKnownGrow(listeners: seq<NativeEntry>, closures: seq<Closure>, more: seq<Closure>)
    requires WrappersKnown(listeners, closures)
    ensures WrappersKnown(listeners, closures + more)
  {
    forall e | e in listeners ensures KnownWrapper(e, closures + more) {
      assert KnownWrapper(e, closures);
      if e.callback.Wrapper? {
        assert (closures + more)[e.callback.serial] == closures[e.callback.serial];
      }
    }
  }

  /** None of `added` was among `prior`. */
  predicate NewRecords(added: seq<ListenerRecord>, prior: seq<ListenerRecord>) {
    forall k :: 0 <= k < |added| ==> added[k] !in prior
  }

  lemma NewRecordsAppend(a: seq<ListenerRecord>, b: seq<ListenerRecord>, R: seq<ListenerRecord>, extra: seq<ListenerRecord>)
    requires NewRecords(a, R) && NewRecords(b, R + extra)
    ensures NewRecords(a + b, R)
  {
    forall k | 0 <= k < |a + b| ensures (a + b)[k] !in R {
      if k >= |a| {
        assert (a + b)[k] == b[k - |a|];
      }
    }
  }

  lemma OriginalsRemoveFirst(rs: seq<ListenerRecord>, x: ListenerRecord)
    requires OriginalsAreHandlers(rs)
    ensures OriginalsAreHandlers(RemoveFirst(rs, x))
  {
    var left := RemoveFirst(rs, x);
    forall r | r in left ensures r.original.Handler? {
      assert r in multiset(left);
    }
  }

  lemma WrappersKnownDetach(listeners: seq<NativeEntry>, x: NativeEntry, closures: seq<Closure>)
    requires WrappersKnown(listeners, closures)
    ensures WrappersKnown(Detach(listeners, x), closures)
  {
  }

  /** The records and native listeners one element's attach adds keep the
      state valid, given that its wrapper was made for that element and
      those names. */
  lemma AttachKeepsValid(
    R: seq<ListenerRecord>, more: seq<ListenerRecord>, L: seq<NativeEntry>, grown: seq<NativeEntry>,
    closures: seq<Closure>, element: Target, names: seq<string>, handler: nat, serial: nat, threw: bool)
    requires OriginalsAreHandlers(R) && WrappersKnown(L, closures)
    requires serial < |closures| && closures[serial].element == element && closures[serial].names == names
    requires threw ==> names != []
    requires Keys(more) == if threw then Row(element, names, handler, serial)[..1] else Row(element, names, handler, serial)
    requires grown == if element.Node? then AttachAll(L, NativesOf(Row(element, names, handler, serial))) else L
    ensures OriginalsAreHandlers(R + more) && WrappersKnown(grown, closures)
  {
    var row := Row(element, names, handler, serial);
    forall r | r in R + more ensures r.original.Handler? {
      if r !in R {
        var k :| 0 <= k < |more| && more[k] == r;
        assert KeyOf(r) == Keys(more)[k] == row[k];
      }
    }
    if element.Node? {
      var natives := NativesOf(row);
      forall e | e in grown ensures KnownWrapper(e, closures) {
        if e !in L {
          var k :| 0 <= k < |natives| && natives[k] == e;
          assert e == NativeEntry(element.id, names[k], Wrapper(serial));
        }
      }
    }
  }

  lemma ListenersStep(L: seq<NativeEntry>, items: seq<Target>, i: nat, names: seq<string>, handler: nat, base: nat, serial: nat)
    requires i < |items| && AllNodes(items[..i + 1]) && serial == base + i
    ensures AllNodes(items[..i]) && AllNodes([items[i]])
    ensures AttachAll(L, PlannedNatives(items[..i + 1], names, handler, base))
            == AttachAll(AttachAll(L, PlannedNatives(items[..i], names, handler, base)),
                         PlannedNatives([items[i]], names, handler, serial))
  {
    PlannedNativesSnoc(items, i, names, handler, base, serial);
    AttachAllAppend(L, PlannedNatives(items[..i], names, handler, base), PlannedNatives([items[i]], names, handler, serial));
  }

  lemma PlannedNativesSnoc(items: seq<Target>, i: nat, names: seq<string>, handler: nat, base: nat, serial: nat)
    requires i < |items| && AllNodes(items[..i + 1]) && serial == base + i
    ensures AllNodes(items[..i]) && AllNodes([items[i]])
    ensures PlannedNatives(items[..i + 1], names, handler, base)
            == PlannedNatives(items[..i], names, handler, base) + PlannedNatives([items[i]], names, handler, serial)
  {
    AllNodesSnoc(items, i);
    var prior := Planned(items[..i], names, handler, base);
    var last := Planned([items[i]], names, handler, serial);
    PlannedNodes(items[..i], names, handler, base);
    PlannedNodes([items[i]], names, handler, serial);
    PlannedSnocSingle(items, i, names, handler, base, serial);
    NativesAppend(prior, last);
  }

  /** A one-element list plans that element's row. */
  lemma PlannedSingle(x: Target, names: seq<string>, handler: nat, base: nat)
    ensures Planned([x], names, handler, base) == Row(x, names, handler, base)
  {
    assert [x][..0] == [];
  }

  /** What one pass of the attach callback leaves, as the attach of a
      one-element list. */
  lemma AttachedOne(
    before: State, after: State, element: Target, names: seq<string>, flavor: Flavor, handler: nat,
    threw: bool, more: seq<ListenerRecord>)
    requires after.closures == before.closures + [Closure(flavor, element, handler, names)]
    requires threw <==> !element.Node? && names != []
    requires after.records == before.records + more && NewRecords(more, before.records)
    requires var row := Row(element, names, handler, |before.closures|);
             Keys(more) == (if threw then row[..1] else row)
             && after.listeners == (if element.Node? then AttachAll(before.listeners, NativesOf(row)) else before.listeners)
    ensures threw == Throws([element], names)
    ensures Attached(before, after, [element], names, flavor, handler)
    ensures element.Node? ==> Grew(before, after, [element], names, flavor, handler, |before.closures|)
  {
    var base := |before.closures|;
    var row := Row(element, names, handler, base);
    assert [element][0] == element;
    assert AllNodes([element]) <==> element.Node?;
    assert after.records[|before.records|..] == more;
    assert NewClosures([element], flavor, handler, names) == [Closure(flavor, element, handler, names)];
    PlannedSingle(element, names, handler, base);
    if element.Node? {
      AttachedOneNode(before, after, element, names, flavor, handler, more, row);
    } else {
      AttachedOneLone(before, after, element, names, flavor, handler, threw, more, row);
    }
  }

  /** The node case of AttachedOne: the element's whole row is attached. */
  lemma AttachedOneNode(
    before: State, after: State, element: Target, names: seq<string>, flavor: Flavor, handler: nat,
    more: seq<ListenerRecord>, row: seq<Entry>)
    requires element.Node? && row == Row(element, names, handler, |before.closures|)
    requires Planned([element], names, handler, |before.closures|) == row
    requires after.closures == before.closures + NewClosures([element], flavor, handler, names)
    requires after.records == before.records + more && after.records[|before.records|..] == more
    requires NewRecords(more, before.records) && Keys(more) == row
    requires after.listeners == AttachAll(before.listeners, NativesOf(row))
    ensures Grew(before, after, [element], names, flavor, handler, |before.closures|)
  {
    PlannedNativesSingle(element, names, handler, |before.closures|);
  }

  /** The case of AttachedOne for a target that is not a node: at most the
      first record, and no native listener. */
  lemma AttachedOneLone(
    before: State, after: State, element: Target, names: seq<string>, flavor: Flavor, handler: nat,
    threw: bool, more: seq<ListenerRecord>, row: seq<Entry>)
    requires !element.Node? && (threw <==> names != [])
    requires row == Row(element, names, handler, |before.closures|)
    requires Planned([element], names, handler, |before.closures|) == row
    requires after.closures == before.closures + NewClosures([element], flavor, handler, names)
    requires after.records == before.records + more && after.records[|before.records|..] == more
    requires NewRecords(more, before.records) && Keys(more) == (if threw then row[..1] else row)
    requires after.listeners == before.listeners
    ensures Attached(before, after, [element], names, flavor, handler)
  {
    var base := |before.closures|;
    assert !AllNodes([element]) by { assert [element][0] == element; }
    if threw {
      assert row[..1] == [Entry(element, names[0], Handler(handler), Wrapper(base))];
    }
  }

  /** What attaching a list of nodes leaves, with the first wrapper's
      number named: the wrappers, the planned records, all of them new, and
      the planned native listeners. */
  ghost predicate Grew(before: State, after: State, items: seq<Target>, names: seq<string>, flavor: Flavor, handler: nat, base: nat)
  {
    AllNodes(items)
    && after.closures == before.closures + NewClosures(items, flavor, handler, names)
    && before.records <= after.records
    && NewRecords(after.records[|before.records|..], before.records)
    && Keys(after.records[|before.records|..]) == Planned(items, names, handler, base)
    && after.listeners == AttachAll(before.listeners, PlannedNatives(items, names, handler, base))
  }

  lemma GrewNothing(S: State, names: seq<string>, flavor: Flavor, handler: nat, base: nat)
    ensures Grew(S, S, [], names, flavor, handler, base)
  {
    assert S.records[|S.records|..] == [];
    assert S.closures + [] == S.closures;
  }

  /** For a list of nodes, Grew from the first fresh wrapper number is
      Attached. */
  lemma AttachedOfGrew(before: State, after: State, items: seq<Target>, names: seq<string>, flavor: Flavor, handler: nat, base: nat)
    requires base == |before.closures| && Grew(before, after, items, names, flavor, handler, base)
    ensures Attached(before, after, items, names, flavor, handler)
  {
  }

  /** Attaching the first `i` elements and then element `i` is attaching
      the first `i + 1`. */
  lemma GrewCompose(
    S0: State, S1: State, S2: State, items: seq<Target>, i: nat, names: seq<string>, flavor: Flavor, handler: nat,
    base: nat, serial: nat)
    requires i < |items| && serial == base + i
    requires Grew(S0, S1, items[..i], names, flavor, handler, base)
    requires Grew(S1, S2, [items[i]], names, flavor, handler, serial)
    ensures Grew(S0, S2, items[..i + 1], names, flavor, handler, base)
  {
    assert [items[i]][0] == items[i];
    AllNodesSnoc(items, i);
    ClosuresCompose(S0.closures, S1.closures, S2.closures, items, i, flavor, handler, names);
    RecordsCompose(S0.records, S1.records, S2.records, items, i, names, handler, base, serial);
    ListenersStep(S0.listeners, items, i, names, handler, base, serial);
  }

  lemma ClosuresCompose(
    C0: seq<Closure>, C1: seq<Closure>, C2: seq<Closure>, items: seq<Target>, i: nat,
    flavor: Flavor, handler: nat, names: seq<string>)
    requires i < |items|
    requires C1 == C0 + NewClosures(items[..i], flavor, handler, names)
    requires C2 == C1 + NewClosures([items[i]], flavor, handler, names)
    ensures |C1| == |C0| + i
    ensures C2 == C0 + NewClosures(items[..i + 1], flavor, handler, names)
  {
    var early := NewClosures(items[..i], flavor, handler, names);
    assert NewClosures([items[i]], flavor, handler, names) == [Closure(flavor, items[i], handler, names)];
    NewClosuresSnoc(items, i, flavor, handler, names);
    AppendAssoc(C0, early, [Closure(flavor, items[i], handler, names)]);
  }

  lemma RecordsCompose(
    R0: seq<ListenerRecord>, R1: seq<ListenerRecord>, R2: seq<ListenerRecord>, items: seq<Target>, i: nat,
    names: seq<string>, handler: nat, base: nat, serial: nat)
    requires i < |items| && R0 <= R1 <= R2 && serial == base + i
    requires NewRecords(R1[|R0|..], R0) && NewRecords(R2[|R1|..], R1)
    requires Keys(R1[|R0|..]) == Planned(items[..i], names, handler, base)
    requires Keys(R2[|R1|..]) == Planned([items[i]], names, handler, serial)
    ensures R0 <= R2 && NewRecords(R2[|R0|..], R0)
    ensures Keys(R2[|R0|..]) == Planned(items[..i + 1], names, handler, base)
  {
    SuffixSplit(R0, R1, R2);
    NewRecordsJoin(R0, R1, R1[|R0|..], R2[|R1|..]);
    KeysCompose(R1[|R0|..], R2[|R1|..], items, i, names, handler, base, serial);
  }

  lemma KeysCompose(
    A: seq<ListenerRecord>, B: seq<ListenerRecord>, items: seq<Target>, i: nat,
    names: seq<string>, handler: nat, base: nat, serial: nat)
    requires i < |items| && serial == base + i
    requires Keys(A) == Planned(items[..i], names, handler, base)
    requires Keys(B) == Planned([items[i]], names, handler, serial)
    ensures Keys(A + B) == Planned(items[..i + 1], names, handler, base)
  {
    KeysAppend(A, B);
    PlannedSnocSingle(items, i, names, handler, base, serial);
  }

  lemma PlannedSnocSingle(items: seq<Target>, i: nat, names: seq<string>, handler: nat, base: nat, serial: nat)
    requires i < |items| && serial == base + i
    ensures Planned(items[..i + 1], names, handler, base)
            == Planned(items[..i], names, handler, base) + Planned([items[i]], names, handler, serial)
  {
    assert items[..i + 1][..i] == items[..i];
    assert [items[i]][..0] == [];
  }

  lemma PlannedNativesSingle(x: Target, names: seq<string>, handler: nat, base: nat)
    requires x.Node?
    ensures PlannedNatives([x], names, handler, base) == NativesOf(Row(x, names, handler, base))
  {
    PlannedSingle(x, names, handler, base);
  }

  lemma SuffixSplit<T>(R0: seq<T>, R1: seq<T>, R2: seq<T>)
    requires R0 <= R1 <= R2
    ensures R2[|R0|..] == R1[|R0|..] + R2[|R1|..]
  {
  }

  lemma NewRecordsJoin(R0: seq<ListenerRecord>, R1: seq<ListenerRecord>, A: seq<ListenerRecord>, B: seq<ListenerRecord>)
    requires R0 <= R1 && A == R1[|R0|..] && NewRecords(A, R0) && NewRecords(B, R1)
    ensures NewRecords(A + B, R0)
  {
    forall k | 0 <= k < |A + B| ensures (A + B)[k] !in R0 {
      if k >= |A| {
        assert (A + B)[k] == B[k - |A|];
        assert forall r :: r in R0 ==> r in R1;
      }
    }
  }

  /** One more record, for the `j`-th entry of the row and new to the
      registry. */
  lemma RecordStep(R: seq<ListenerRecord>, added: seq<ListenerRecord>, record: ListenerRecord, row: seq<Entry>, j: nat)
    requires j < |row| && Keys(added) == row[..j] && KeyOf(record) == row[j]
    requires NewRecords(added, R) && record !in R + added
    ensures Keys(added + [record]) == row[..j + 1]
    ensures NewRecords(added + [record], R)
    ensures R + added + [record] == R + (added + [record])
  {
    KeysSnoc(added, record, row, j);
    NewRecordsAppend(added, [record], R, added);
    AppendAssoc(R, added, [record]);
  }

  lemma KeysSnoc(added: seq<ListenerRecord>, record: ListenerRecord, row: seq<Entry>, j: nat)
    requires j < |row| && Keys(added) == row[..j] && KeyOf(record) == row[j]
    ensures Keys(added + [record]) == row[..j + 1]
  {
    KeysAppend(added, [record]);
    TakeSnoc(row, j + 1);
  }

  /** One more name attached to a node's wrapper. */
  lemma AttachNameStep(listeners: seq<NativeEntry>, node: NodeId, names: seq<string>, callback: Callback, j: nat)
    requires j < |names|
    ensures AttachAll(listeners, OwnEntries(node, names[..j + 1], callback))
            == Attach(AttachAll(listeners, OwnEntries(node, names[..j], callback)), NativeEntry(node, names[j], callback))
  {
    var prior := OwnEntries(node, names[..j], callback);
    assert OwnEntries(node, names[..j + 1], callback) == prior + [NativeEntry(node, names[j], callback)];
    AttachAllSnoc(listeners, prior, NativeEntry(node, names[j], callback));
  }

  /** A node's row of native listeners is its wrapper on every name. */
  lemma RowNatives(element: Target, names: seq<string>, handler: nat, serial: nat)
    requires element.Node?
    ensures NativesOf(Row(element, names, handler, serial)) == OwnEntries(element.id, names, Wrapper(serial))
  {
  }

  lemma AppendAssoc<T>(a: seq<T>, b: seq<T>, c: seq<T>)
    ensures a + (b + c) == a + b + c
  {
  }

  lemma PrefixPlusOne<T>(a: seq<T>, b: seq<T>)
    requires a <= b && |b| == |a| + 1
    ensures b == a + [b[|a|]]
  {
  }

  lemma NewClosuresSnoc(items: seq<Target>, i: nat, flavor: Flavor, handler: nat, names: seq<string>)
    requires i < |items|
    ensures NewClosures(items[..i + 1], flavor, handler, names)
            == NewClosures(items[..i], flavor, handler, names) + [Closure(flavor, items[i], handler, names)]
  {
  }

  lemma AttachAllAppend(listeners: seq<NativeEntry>, xs: seq<NativeEntry>, ys: seq<NativeEntry>)
    ensures AttachAll(listeners, xs + ys) == AttachAll(AttachAll(listeners, xs), ys)
    decreases |ys|
  {
    if ys == [] {
      assert xs + ys == xs;
    } else {
      var ys' := ys[..|ys| - 1];
      assert (xs + ys)[..|xs + ys| - 1] == xs + ys';
      AttachAllAppend(listeners, xs, ys');
    }
  }

  lemma NativesAppend(a: seq<Entry>, b: seq<Entry>)
    requires forall k :: 0 <= k < |a| ==> a[k].element.Node?
    requires forall k :: 0 <= k < |b| ==> b[k].element.Node?
    ensures NativesOf(a + b) == NativesOf(a) + NativesOf(b)
  {
  }

  /** Detaching along the first `i` elements and then along element `i` is
      detaching along the first `i + 1`. */
  lemma RemoveCompose(
    start: Removal, mid: Removal, after: Removal, items: seq<Target>, i: nat, names: seq<string>, handler: Callback)
    requires i < |items|
    requires RemoveAll(start, Pairs(items[..i], names), handler) == mid
    requires RemoveAll(mid, RowPairs(items[i], names), handler) == after
    ensures RemoveAll(start, Pairs(items[..i + 1], names), handler) == after
  {
    PairsSnoc(items, i, names);
    RemoveAllAppend(start, Pairs(items[..i], names), RowPairs(items[i], names), handler);
  }

  /** A target that is not a node is the only one in its list. */
  lemma LoneFailure(items: seq<Target>, i: nat)
    requires i < |items| && (AllNodes(items) || |items| == 1) && !items[i].Node?
    ensures i == 0 && items[..i + 1] == items
  {
  }

  /** Detaching along the first `j` pairs and then along pair `j` is
      detaching along the first `j + 1`; a throw there is the end of the
      whole row. */
  lemma DetachStep(start: Removal, mid: Removal, after: Removal, row: seq<Pair>, j: nat, p: Pair, handler: Callback)
    requires j < |row| && row[j] == p
    requires RemoveAll(start, row[..j], handler) == mid && !mid.threw
    requires RemoveStep(mid, p, handler) == after
    ensures RemoveAll(start, row[..j + 1], handler) == after
    ensures after.threw ==> RemoveAll(start, row, handler) == after
  {
    TakeSnoc(row, j + 1);
    RemoveAllSnoc(start, row[..j], row[j], handler);
    if after.threw {
      ThrowAt(start, row, j, handler);
    }
  }

  /** A `remove` pass over a target that is not a node throws, and nothing
      after it happens. */
  lemma ThrowAt(s: Removal, pairs: seq<Pair>, j: nat, handler: Callback)
    requires j < |pairs| && !pairs[j].element.Node?
    ensures RemoveAll(s, pairs, handler) == RemoveAll(s, pairs[..j], handler).(threw := true)
  {
    var before := RemoveAll(s, pairs[..j], handler);
    assert pairs == pairs[..j] + [pairs[j]] + pairs[j + 1..];
    RemoveAllAppend(s, pairs[..j] + [pairs[j]], pairs[j + 1..], handler);
    RemoveAllSnoc(s, pairs[..j], pairs[j], handler);
    ThrownStays(RemoveStep(before, pairs[j], handler), pairs[j + 1..], handler);
  }

  /** The `off` call a one-shot wrapper makes with itself as the handler:
      no record has a wrapper as its original, so the registry stays as it
      is and the wrapper is detached for each of its names, which are the
      only names it is attached for. */
  lemma OneShotRemoval(R: seq<ListenerRecord>, L: seq<NativeEntry>, node: NodeId, names: seq<string>, serial: nat)
    requires OriginalsAreHandlers(R)
    requires forall e :: e in L && e.callback == Wrapper(serial) ==> e.node == node && e.eventType in names
    ensures RemoveAll(Removal(R, L, false), Pairs([Node(node)], names), Wrapper(serial))
            == Removal(R, DetachAll(L, OwnEntries(node, names, Wrapper(serial))), false)
    ensures forall e :: e in DetachAll(L, OwnEntries(node, names, Wrapper(serial))) ==> e.callback != Wrapper(serial)
  {
    var own := OwnEntries(node, names, Wrapper(serial));
    PairsOfOne(Node(node), names);
    assert RowPairs(Node(node), names)[..|names|] == RowPairs(Node(node), names);
    WrapperRemoveMisses(R, L, node, names, serial, |names|);
    assert own[..|names|] == own;
    forall e | e in L && e.callback == Wrapper(serial)
      ensures e in own
    {
      var j :| 0 <= j < |names| && names[j] == e.eventType;
      assert own[j] == e;
    }
  }

  /** Detaching, name by name, what an attach call on nodes added gives back
      the registry and the native listener lists of before the attach, when
      the handler had no record before for any of those elements and names. */
  lemma AddRemoveRoundTrip(S0: State, S1: State, items: seq<Target>, names: seq<string>, flavor: Flavor, handler: nat)
    requires AllNodes(items) && Attached(S0, S1, items, names, flavor, handler)
    requires forall r :: r in S0.records && r.original == Handler(handler) ==> r.element !in items || r.eventName !in names
    requires WrappersKnown(S0.listeners, S0.closures)
    ensures RemoveAll(Removal(S1.records, S1.listeners, false), Pairs(items, names), Handler(handler))
            == Removal(S0.records, S0.listeners, false)
  {
    var R, B := S0.records, S1.records[|S0.records|..];
    AttachedParts(S0, S1, items, names, flavor, handler);
    PrefixSplit(R, S1.records);
    NewRecordsDisjoint(B, R);
    KnownSerials(S0.listeners, S0.closures);
    RemoveUndoesAttach(R, B, S0.listeners, items, names, handler, |S0.closures|);
  }

  /** What an attach call on nodes left, piece by piece. */
  lemma AttachedParts(S0: State, S1: State, items: seq<Target>, names: seq<string>, flavor: Flavor, handler: nat)
    requires AllNodes(items) && Attached(S0, S1, items, names, flavor, handler)
    ensures S0.records <= S1.records
    ensures Keys(S1.records[|S0.records|..]) == Planned(items, names, handler, |S0.closures|)
    ensures NewRecords(S1.records[|S0.records|..], S0.records)
    ensures S1.listeners == AttachAll(S0.listeners, PlannedNatives(items, names, handler, |S0.closures|))
  {
    assert !Throws(items, names);
  }

  lemma PrefixSplit<T>(a: seq<T>, b: seq<T>)
    requires a <= b
    ensures b == a + b[|a|..]
  {
  }

  lemma NewRecordsDisjoint(B: seq<ListenerRecord>, R: seq<ListenerRecord>)
    requires NewRecords(B, R)
    ensures forall b :: b in B ==> b !in R
  {
    forall b | b in B ensures b !in R {
      var k :| 0 <= k < |B| && B[k] == b;
    }
  }

  /** Every attached wrapper was made before. */
  lemma KnownSerials(L: seq<NativeEntry>, closures: seq<Closure>)
    requires WrappersKnown(L, closures)
    ensures forall e :: e in L && e.callback.Wrapper? ==> e.callback.serial < |closures|
  {
    forall e | e in L && e.callback.Wrapper? ensures e.callback.serial < |closures| {
      assert KnownWrapper(e, closures);
    }
  }

  class Events {
    const registry: Listeners
    const host: Host
    var closures: seq<Closure>

    ghost function Snapshot(): State
      reads this, registry, host
    {
      State(registry.records, host.listeners, closures)
    }

    /** The registry and the native listener lists agree with the wrappers
        the library has made. */
    ghost predicate Valid()
      reads this, registry, host
    {
      OriginalsAreHandlers(registry.records) && WrappersKnown(host.listeners, closures)
    }

    /** Every one-shot wrapper knows the names of its raw argument. */
    ghost predicate Parsed()
      reads this
    {
      ParsedNames(closures)
    }

    /** The library loaded into a page whose own listeners are all plain
        functions. */
    constructor(host: Host)
      requires forall e :: e in host.listeners ==> e.callback.Handler?
      ensures this.host == host && fresh(registry)
      ensures registry.records == [] && closures == []
      ensures Valid() && Parsed()
    {
      this.host := host;
      registry := new Listeners();
      closures := [];
    }

    /** One name of the attach callback: the registry record, then the
        native attach of the wrapper, which throws when the element is not a
        node. */
    method AttachOne(element: Target, name: string, handler: nat, serial: nat)
      returns (threw: bool, ghost record: ListenerRecord)
      modifies registry, host
      ensures threw <==> !element.Node?
      ensures registry.records == old(registry.records) + [record] && record !in old(registry.records)
      ensures KeyOf(record) == Entry(element, name, Handler(handler), Wrapper(serial))
      ensures host.listeners == if element.Node? then Attach(old(host.listeners), NativeEntry(element.id, name, Wrapper(serial)))
                                else old(host.listeners)
    {
      ghost var rs := registry.records;
      var _ := registry.Add(element, name, Handler(handler), Wrapper(serial));
      record := registry.records[|rs|];
      PrefixPlusOne(rs, registry.records);
      if !element.Node? {
        threw := true;
        return;
      }
      host.AddEventListener(element.id, name, Wrapper(serial));
      threw := false;
    }

    /** The per-element callback of `_addDirect`, `_addDelegated` and
        `once`, for an element whose wrapper is `serial`: each name in turn,
        stopping at the first throw. */
    method AttachElement(element: Target, names: seq<string>, handler: nat, serial: nat)
      returns (threw: bool, ghost added: seq<ListenerRecord>)
      modifies registry, host
      ensures threw <==> !element.Node? && names != []
      ensures registry.records == old(registry.records) + added
      ensures Keys(added) == if threw then Row(element, names, handler, serial)[..1] else Row(element, names, handler, serial)
      ensures host.listeners == if element.Node? then AttachAll(old(host.listeners), NativesOf(Row(element, names, handler, serial)))
                                else old(host.listeners)
      ensures NewRecords(added, old(registry.records))
    {
      ghost var R, L := registry.records, host.listeners;
      ghost var row := Row(element, names, handler, serial);
      added := [];
      var j := 0;
      threw := false;
      while j < |names|
        invariant 0 <= j <= |names| && !threw
        invariant element.Node? || j == 0
        invariant registry.records == R + added && Keys(added) == row[..j]
        invariant element.Node? ==> host.listeners == AttachAll(L, OwnEntries(element.id, names[..j], Wrapper(serial)))
        invariant !element.Node? ==> host.listeners == L
        invariant NewRecords(added, R)
      {
        var failed, record := AttachOne(element, names[j], handler, serial);
        RecordStep(R, added, record, row, j);
        added := added + [record];
        if failed {
          threw := true;
          break;
        }
        AttachNameStep(L, element.id, names, Wrapper(serial), j);
        j := j + 1;
      }
      if !threw {
        assert row[..j] == row;
        assert names[..j] == names;
        if element.Node? {
          RowNatives(element, names, handler, serial);
        }
      }
    }

    /** The attach callback for one element: a fresh wrapper closure, then
        its records and native listeners. */
    method RegisterOne(element: Target, names: seq<string>, flavor: Flavor, handler: nat, ghost serial: nat)
      returns (threw: bool)
      requires Valid() && Parsed() && serial == |closures|
      requires flavor.OneShot? ==> names == Names(flavor.events)
      modifies this, registry, host
      ensures Valid() && Parsed()
      ensures threw == Throws([element], names)
      ensures |closures| == old(|closures|) + 1
      ensures !element.Node? ==> Attached(old(Snapshot()), Snapshot(), [element], names, flavor, handler)
      ensures element.Node? ==> Grew(old(Snapshot()), Snapshot(), [element], names, flavor, handler, serial)
    {
      ghost var before := Snapshot();
      var wrapper := |closures|;
      var closure := Closure(flavor, element, handler, names);
      WrappersKnownGrow(host.listeners, closures, [closure]);
      ParsedGrow(closures, closure);
      closures := closures + [closure];
      ghost var M, N := registry.records, host.listeners;
      ghost var more;
      threw, more := AttachElement(element, names, handler, wrapper);
      AttachKeepsValid(M, more, N, host.listeners, closures, element, names, handler, serial, threw);
      AttachedOne(before, Snapshot(), element, names, flavor, handler, threw, more);
    }

    /** `_forEachElements` over the resolved elements with the attach
        callback: one fresh wrapper per element. A list that is not all
        nodes is a zero-length collection wrapped as the one element, whose
        callback throws at its first name. */
    method Register(items: seq<Target>, names: seq<string>, flavor: Flavor, handler: nat) returns (threw: bool)
      requires Valid() && Parsed() && (AllNodes(items) || |items| == 1)
      requires flavor.OneShot? ==> names == Names(flavor.events)
      modifies this, registry, host
      ensures Valid() && Parsed()
      ensures threw == Throws(items, names)
      ensures Attached(old(Snapshot()), Snapshot(), items, names, flavor, handler)
    {
      if !AllNodes(items) {
        assert items == [items[0]];
        threw := RegisterOne(items[0], names, flavor, handler, |closures|);
        return;
      }
      ghost var S0 := Snapshot();
      RegisterEach(items, names, flavor, handler);
      AttachedOfGrew(S0, Snapshot(), items, names, flavor, handler, |S0.closures|);
      threw := false;
    }

    /** The loop of `_forEachElements` over a list of nodes. */
    method RegisterEach(items: seq<Target>, names: seq<string>, flavor: Flavor, handler: nat)
      requires Valid() && Parsed() && AllNodes(items)
      requires flavor.OneShot? ==> names == Names(flavor.events)
      modifies this, registry, host
      ensures Valid() && Parsed()
      ensures Grew(old(Snapshot()), Snapshot(), items, names, flavor, handler, old(|closures|))
    {
      ghost var S0 := Snapshot();
      ghost var base := |closures|;
      GrewNothing(S0, names, flavor, handler, base);
      assert items[..0] == [];
      var i := 0;
      while i < |items|
        invariant 0 <= i <= |items| && Valid() && Parsed()
        invariant |closures| == base + i
        invariant Grew(S0, Snapshot(), items[..i], names, flavor, handler, base)
      {
        RegisterNext(S0, items, i, names, flavor, handler, base);
        i := i + 1;
      }
      assert items[..i] == items;
    }

    /** One pass of the element loop: the next element's closure, records
        and native listeners join those of the elements before it. */
    method RegisterNext(ghost S0: State, items: seq<Target>, i: nat, names: seq<string>, flavor: Flavor, handler: nat, ghost base: nat)
      requires Valid() && Parsed() && AllNodes(items) && i < |items|
      requires flavor.OneShot? ==> names == Names(flavor.events)
      requires |closures| == base + i && Grew(S0, Snapshot(), items[..i], names, flavor, handler, base)
      modifies this, registry, host
      ensures Valid() && Parsed() && |closures| == base + i + 1
      ensures Grew(S0, Snapshot(), items[..i + 1], names, flavor, handler, base)
    {
      ghost var S1 := Snapshot();
      assert items[i].Node?;
      var _ := RegisterOne(items[i], names, flavor, handler, |closures|);
      GrewCompose(S0, S1, Snapshot(), items, i, names, flavor, handler, base, old(|closures|));
    }

    /** `_addDirect`: the handler runs on the element it was attached to;
        returns the resolved element list. */
    method AddDirect(tree: Tree, elements: ElementsArg, events: EventsArg, handler: nat) returns (outcome: Outcome)
      requires Valid() && Parsed()
      modifies this, registry, host
      ensures Valid() && Parsed()
      ensures Attached(old(Snapshot()), Snapshot(), Resolve(tree, elements), Names(events), Direct, handler)
      ensures outcome == if Throws(Resolve(tree, elements), Names(events)) then TypeError
                         else Returned(Resolve(tree, elements))
    {
      var eventNames := MapAndFilterEvents(events, KeepName);
      NamesWithoutCallback(events);
      var items := Resolve(tree, elements);
      var threw := Register(items, eventNames, Direct, handler);
      outcome := if threw then TypeError else Returned(items);
    }

    /** `_addDelegated`: the handler runs on the nearest element below the
        listening one that matches `selector`; returns the resolved
        element list. */
    method AddDelegated(tree: Tree, elements: ElementsArg, events: EventsArg, selector: string, handler: nat)
      returns (outcome: Outcome)
      requires Valid() && Parsed()
      modifies this, registry, host
      ensures Valid() && Parsed()
      ensures Attached(old(Snapshot()), Snapshot(), Resolve(tree, elements), Names(events), Delegated(selector), handler)
      ensures outcome == if Throws(Resolve(tree, elements), Names(events)) then TypeError
                         else Returned(Resolve(tree, elements))
    {
      var eventNames := MapAndFilterEvents(events, KeepName);
      NamesWithoutCallback(events);
      var items := Resolve(tree, elements);
      var threw := Register(items, eventNames, Delegated(selector), handler);
      outcome := if threw then TypeError else Returned(items);
    }

    /** `once`: the handler runs at most once per element; returns the
        resolved element list. */
    method Once(tree: Tree, elements: ElementsArg, events: EventsArg, handler: nat) returns (outcome: Outcome)
      requires Valid() && Parsed()
      modifies this, registry, host
      ensures Valid() && Parsed()
      ensures Attached(old(Snapshot()), Snapshot(), Resolve(tree, elements), Names(events), OneShot(events), handler)
      ensures outcome == if Throws(Resolve(tree, elements), Names(events)) then TypeError
                         else Returned(Resolve(tree, elements))
    {
      var eventNames := MapAndFilterEvents(events, KeepName);
      NamesWithoutCallback(events);
      var items := Resolve(tree, elements);
      var threw := Register(items, eventNames, OneShot(events), handler);
      outcome := if threw then TypeError else Returned(items);
    }

    /** `add`: three arguments, or four with a null third, attach directly;
        four with a selector attach by delegation; any other count does
        nothing and returns undefined. */
    method Add(tree: Tree, args: AddArgs) returns (outcome: Outcome)
      requires Valid() && Parsed()
      modifies this, registry, host
      ensures Valid() && Parsed()
      ensures args.OtherCount? ==> outcome == Undefined && Snapshot() == old(Snapshot())
      ensures args.Three? || (args.Four? && args.selector.None?) ==>
                Attached(old(Snapshot()), Snapshot(), Resolve(tree, args.elements), Names(args.events), Direct, args.handler)
                && outcome == if Throws(Resolve(tree, args.elements), Names(args.events)) then TypeError
                              else Returned(Resolve(tree, args.elements))
      ensures args.Four? && args.selector.Some? ==>
                Attached(old(Snapshot()), Snapshot(), Resolve(tree, args.elements), Names(args.events),
                         Delegated(args.selector.value), args.handler)
                && outcome == if Throws(Resolve(tree, args.elements), Names(args.events)) then TypeError
                              else Returned(Resolve(tree, args.elements))
    {
      if args.Three? {
        outcome := AddDirect(tree, args.elements, args.events, args.handler);
      } else if args.Four? && args.selector.None? {
        outcome := AddDirect(tree, args.elements, args.events, args.handler);
      } else if args.Four? {
        outcome := AddDelegated(tree, args.elements, args.events, args.selector.value, args.handler);
      } else {
        outcome := Undefined;
      }
    }

    /** One name of the detach callback: the first record for the handler
        gives the wrapper to detach, and is dropped; without one the handler
        itself is detached. The native call throws when the element is not
        a node, after the lookup and before anything changes. */
    method DetachOne(element: Target, name: string, handler: Callback) returns (threw: bool)
      requires Valid()
      modifies registry, host
      ensures Valid()
      ensures threw <==> !element.Node?
      ensures RemoveStep(Removal(old(registry.records), old(host.listeners), false), Pair(element, name), handler)
              == Removal(registry.records, host.listeners, threw)
    {
      var listener := registry.Find(element, name, handler);
      if !element.Node? {
        threw := true;
        return;
      }
      if listener != null {
        WrappersKnownDetach(host.listeners, NativeEntry(element.id, name, listener.wrapper), closures);
        host.RemoveEventListener(element.id, name, listener.wrapper);
        OriginalsRemoveFirst(registry.records, listener);
        var _ := registry.Remove(listener);
      } else {
        WrappersKnownDetach(host.listeners, NativeEntry(element.id, name, handler), closures);
        host.RemoveEventListener(element.id, name, handler);
      }
      threw := false;
    }

    /** The per-element callback of `remove`: each name in turn, stopping at
        the first throw. */
    method DetachElement(element: Target, names: seq<string>, handler: Callback) returns (threw: bool)
      requires Valid()
      modifies registry, host
      ensures Valid()
      ensures threw <==> !element.Node? && names != []
      ensures RemoveAll(Removal(old(registry.records), old(host.listeners), false), RowPairs(element, names), handler)
              == Removal(registry.records, host.listeners, threw)
    {
      ghost var start := Removal(registry.records, host.listeners, false);
      ghost var row := RowPairs(element, names);
      var j := 0;
      threw := false;
      while j < |names|
        invariant 0 <= j <= |names| && Valid() && !threw
        invariant RemoveAll(start, row[..j], handler) == Removal(registry.records, host.listeners, false)
      {
        ghost var mid := Removal(registry.records, host.listeners, false);
        var failed := DetachOne(element, names[j], handler);
        DetachStep(start, mid, Removal(registry.records, host.listeners, failed), row, j, Pair(element, names[j]), handler);
        if failed {
          threw := true;
          break;
        }
        j := j + 1;
      }
      if !threw {
        assert row[..j] == row;
      }
    }

    /** `_forEachElements` over the resolved elements with the detach
        callback, stopping at the first throw. */
    method Unregister(items: seq<Target>, names: seq<string>, handler: Callback) returns (threw: bool)
      requires Valid() && (AllNodes(items) || |items| == 1)
      modifies registry, host
      ensures Valid()
      ensures RemoveAll(Removal(old(registry.records), old(host.listeners), false), Pairs(items, names), handler)
              == Removal(registry.records, host.listeners, threw)
    {
      ghost var start := Removal(registry.records, host.listeners, false);
      var i := 0;
      threw := false;
      while i < |items|
        invariant 0 <= i <= |items| && Valid() && !threw
        invariant RemoveAll(start, Pairs(items[..i], names), handler)
                  == Removal(registry.records, host.listeners, false)
      {
        ghost var mid := Removal(registry.records, host.listeners, false);
        var failed := DetachElement(items[i], names, handler);
        RemoveCompose(start, mid, Removal(registry.records, host.listeners, failed), items, i, names, handler);
        if failed {
          LoneFailure(items, i);
          threw := true;
          break;
        }
        i := i + 1;
      }
      if !threw {
        assert items[..i] == items;
      }
    }

    /** `remove`: the detach callback over the resolved elements, for the
        parsed names; returns the resolved element list. */
    method Remove(tree: Tree, elements: ElementsArg, events: EventsArg, handler: Callback) returns (outcome: Outcome)
      requires Valid()
      modifies registry, host
      ensures Valid()
      ensures var after := RemoveAll(Removal(old(registry.records), old(host.listeners), false),
                                     Pairs(Resolve(tree, elements), Names(events)), handler);
              registry.records == after.records && host.listeners == after.listeners
              && outcome == if after.threw then TypeError else Returned(Resolve(tree, elements))
    {
      var eventNames := MapAndFilterEvents(events, KeepName);
      NamesWithoutCallback(events);
      var items := Resolve(tree, elements);
      var threw := Unregister(items, eventNames, handler);
      outcome := if threw then TypeError else Returned(items);
    }

    /** A wrapper runs because the browser dispatched `eventType` at `node`,
        where it is attached; `target` is the event's target. A direct or
        one-shot wrapper calls the handler on its element; a delegated one
        calls it on the nearest match between the target and its element,
        or not at all. A one-shot wrapper then calls `off` with itself as
        the handler. */
    method Fire(tree: Tree, node: NodeId, eventType: string, serial: nat, target: NodeId) returns (call: Option<Call>)
      requires Valid() && Parsed() && tree.WellFormed()
      requires NativeEntry(node, eventType, Wrapper(serial)) in host.listeners
      modifies registry, host
      ensures Valid() && serial < |closures|
      ensures closures[serial].flavor.Direct? ==>
                call == Some(Call(closures[serial].handler, node)) && Snapshot() == old(Snapshot())
      ensures closures[serial].flavor.Delegated? ==>
                Snapshot() == old(Snapshot())
                && var m := BubbleCheck(tree, node, target, closures[serial].flavor.selector);
                   call == if m.Some? then Some(Call(closures[serial].handler, m.value)) else None
      ensures closures[serial].flavor.OneShot? ==>
                call == Some(Call(closures[serial].handler, node))
                && registry.records == old(registry.records)
                && host.listeners == DetachAll(old(host.listeners),
                                               OwnEntries(node, Names(closures[serial].flavor.events), Wrapper(serial)))
                && forall e :: e in host.listeners ==> e.callback != Wrapper(serial)
    {
      var c := closures[serial];
      assert KnownWrapper(NativeEntry(node, eventType, Wrapper(serial)), closures);
      if c.flavor.Direct? {
        call := Some(Call(c.handler, c.element.id));
      } else if c.flavor.Delegated? {
        var m := BubbleCheck(tree, c.element.id, target, c.flavor.selector);
        call := if m.Some? then Some(Call(c.handler, m.value)) else None;
      } else {
        call := Some(Call(c.handler, c.element.id));
        ghost var names := Names(c.flavor.events);
        forall e | e in host.listeners && e.callback == Wrapper(serial)
          ensures e.node == node && e.eventType in names
        {
          assert KnownWrapper(e, closures);
        }
        OneShotRemoval(registry.records, host.listeners, node, names, serial);
        var _ := Remove(tree, Single(c.element.id), c.flavor.events, Wrapper(serial));
      }
    }

    /** `add(el, 'load', handler)` followed by `remove(el, 'load', handler)`
        with a handler not yet attached there leaves the registry and the
        native listener lists as they were. */
    method AddThenRemove(tree: Tree, elements: ElementsArg, events: EventsArg, handler: nat)
      returns (added: Outcome, removed: Outcome)
      requires Valid() && Parsed()
      requires forall r :: r in registry.records && r.original == Handler(handler) ==>
                 r.element !in Resolve(tree, elements) || r.eventName !in Names(events)
      modifies this, registry, host
      ensures Valid() && Parsed()
      ensures AllNodes(Resolve(tree, elements)) ==>
                registry.records == old(registry.records) && host.listeners == old(host.listeners)
                && added == Returned(Resolve(tree, elements)) && removed == Returned(Resolve(tree, elements))
    {
      ghost var S0 := Snapshot();
      var args := Three(elements, events, handler);
      added := Add(tree, args);
      ghost var S1 := Snapshot();
      ghost var items, names := Resolve(tree, elements), Names(events);
      if AllNodes(items) {
        AddRemoveRoundTrip(S0, S1, items, names, Direct, handler);
      }
      removed := Remove(tree, elements, events, Handler(handler));
    }
  }
}
