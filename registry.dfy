/** The listener registry (`_listeners`): a module-wide list of
    `{element, eventName, original, wrapper}` records, so that `remove` can
    find the wrapper that was attached in place of a caller's handler. */
module Registry {
  import opened Dom

  /** One registry record. Records are objects: `remove` deletes a record by
      identity, so two records with equal fields are still two records. */
  class ListenerRecord {
    const element: Target
    const eventName: string
    const original: Callback
    const wrapper: Callback

    constructor(element: Target, eventName: string, original: Callback, wrapper: Callback)
      ensures this.element == element && this.eventName == eventName
      ensures this.original == original && this.wrapper == wrapper
    {
      this.element := element;
      this.eventName := eventName;
      this.original := original;
      this.wrapper := wrapper;
    }
  }

  /** The fields of a record, as a value. */
  datatype Entry = Entry(element: Target, eventName: string, original: Callback, wrapper: Callback)

  function KeyOf(r: ListenerRecord): Entry {
    Entry(r.element, r.eventName, r.original, r.wrapper)
  }

  function Keys(rs: seq<ListenerRecord>): (es: seq<Entry>)
    ensures |es| == |rs| && forall k :: 0 <= k < |rs| ==> es[k] == KeyOf(rs[k])
  {
    seq(|rs|, k requires 0 <= k < |rs| => KeyOf(rs[k]))
  }

  lemma KeysAppend(a: seq<ListenerRecord>, b: seq<ListenerRecord>)
    ensures Keys(a + b) == Keys(a) + Keys(b)
  {
  }

  /** The record is for this element, event name and original handler. */
  predicate Keyed(r: ListenerRecord, element: Target, eventName: string, original: Callback) {
    r.element == element && r.eventName == eventName && r.original == original
  }

  /** `find`: the first record keyed by the triple, or null when none is. */
  function FindFirst(rs: seq<ListenerRecord>, element: Target, eventName: string, original: Callback): (r: ListenerRecord?)
    ensures r != null ==> r in rs && Keyed(r, element, eventName, original)
    ensures r == null <==> forall k :: 0 <= k < |rs| ==> !Keyed(rs[k], element, eventName, original)
  {
    if rs == [] then null
    else if Keyed(rs[0], element, eventName, original) then rs[0]
    else FindFirst(rs[1..], element, eventName, original)
  }

  /** The record at `i` is the one found when no record before it is keyed
      by the same triple. */
  lemma {:induction false} FindFirstAt(rs: seq<ListenerRecord>, element: Target, eventName: string, original: Callback, i: nat)
    requires i < |rs| && Keyed(rs[i], element, eventName, original)
    requires forall k :: 0 <= k < i ==> !Keyed(rs[k], element, eventName, original)
    ensures FindFirst(rs, element, eventName, original) == rs[i]
  {
    if i > 0 {
      FindFirstAt(rs[1..], element, eventName, original, i - 1);
    }
  }

  /** `remove`: the first occurrence of the very record `x` is taken out. */
  function RemoveFirst(rs: seq<ListenerRecord>, x: ListenerRecord): (r: seq<ListenerRecord>)
    ensures x in rs ==> multiset(r) == multiset(rs) - multiset{x}
    ensures x !in rs ==> r == rs
  {
    if rs == [] then []
    else
      HeadTail(rs);
      if rs[0] == x then rs[1..]
      else [rs[0]] + RemoveFirst(rs[1..], x)
  }

  lemma HeadTail(rs: seq<ListenerRecord>)
    requires rs != []
    ensures rs == [rs[0]] + rs[1..]
    ensures multiset(rs) == multiset{rs[0]} + multiset(rs[1..])
  {
    assert rs == [rs[0]] + rs[1..];
  }

  /** Taking out the occurrence at `i` keeps every other record in order. */
  lemma {:induction false} RemoveFirstAt(rs: seq<ListenerRecord>, x: ListenerRecord, i: nat)
    requires i < |rs| && rs[i] == x && x !in rs[..i]
    ensures RemoveFirst(rs, x) == rs[..i] + rs[i + 1..]
  {
    if i == 0 {
      RemoveFirstHead(rs, x);
    } else {
      var tail := rs[1..];
      TailSlices(rs, i);
      assert x !in tail[..i - 1];
      RemoveFirstAt(tail, x, i - 1);
      RemoveFirstSkip(rs, x);
      ConsAssoc(rs[0], tail[..i - 1], tail[i..]);
    }
  }

  lemma ConsAssoc(a: ListenerRecord, b: seq<ListenerRecord>, c: seq<ListenerRecord>)
    ensures [a] + (b + c) == ([a] + b) + c
  {
  }

  lemma RemoveFirstHead(rs: seq<ListenerRecord>, x: ListenerRecord)
    requires rs != [] && rs[0] == x
    ensures RemoveFirst(rs, x) == rs[..0] + rs[1..]
  {
    assert rs[..0] + rs[1..] == rs[1..];
  }

  lemma RemoveFirstSkip(rs: seq<ListenerRecord>, x: ListenerRecord)
    requires rs != [] && rs[0] != x
    ensures RemoveFirst(rs, x) == [rs[0]] + RemoveFirst(rs[1..], x)
  {
  }

  /** How the slices of `rs` around `i` look from its tail. */
  lemma TailSlices(rs: seq<ListenerRecord>, i: nat)
    requires 0 < i < |rs|
    ensures rs[..i] == [rs[0]] + rs[1..][..i - 1]
    ensures rs[1..][i - 1] == rs[i] && rs[1..][i..] == rs[i + 1..]
    ensures rs[0] in rs[..i]
    ensures forall y :: y in rs[1..][..i - 1] ==> y in rs[..i]
  {
    assert rs[..i][0] == rs[0];
  }

  /** The registry object. */
  class Listeners {
    var records: seq<ListenerRecord>

    constructor()
      ensures records == []
    {
      records := [];
    }

    /** `add`: one new record at the end; returns the new length. */
    method Add(element: Target, eventName: string, original: Callback, wrapper: Callback) returns (length: nat)
      modifies this
      ensures |records| == |old(records)| + 1 && old(records) <= records
      ensures fresh(records[|records| - 1]) && records[|records| - 1] !in old(records)
      ensures KeyOf(records[|records| - 1]) == Entry(element, eventName, original, wrapper)
      ensures length == |records|
    {
      var listener := new ListenerRecord(element, eventName, original, wrapper);
      records := records + [listener];
      length := |records|;
    }

    /** `remove`: deletes the first occurrence of `listener` itself and
        reports whether there was one. */
    method Remove(listener: ListenerRecord) returns (removed: bool)
      modifies this
      ensures removed <==> listener in old(records)
      ensures records == RemoveFirst(old(records), listener)
    {
      var i, n := 0, |records|;
      while i < n
        invariant 0 <= i <= n == |records| && records == old(records)
        invariant listener !in records[..i]
      {
        if listener == records[i] {
          RemoveFirstAt(records, listener, i);
          records := records[..i] + records[i + 1..];
          return true;
        }
        i := i + 1;
      }
      assert records[..i] == records;
      return false;
    }

    /** `find`: the first record keyed by the triple, or null. */
    method Find(element: Target, eventName: string, original: Callback) returns (found: ListenerRecord?)
      ensures found == FindFirst(records, element, eventName, original)
    {
      var i, n := 0, |records|;
      while i < n
        invariant 0 <= i <= n == |records|
        invariant forall k :: 0 <= k < i ==> !Keyed(records[k], element, eventName, original)
      {
        var l := records[i];
        if l.element == element && l.eventName == eventName && l.original == original {
          FindFirstAt(records, element, eventName, original, i);
          return l;
        }
        i := i + 1;
      }
      return null;
    }
  }
}
