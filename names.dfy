/** The event-name parser (`_mapAndFilterEvents`): a space-separated string
    or an array of names becomes the list of trimmed, non-empty names, each
    optionally passed through a callback that may drop it. */
module EventNames {
  import opened Wrappers
  import opened Text

  /** The `events` argument of every public operation. */
  datatype EventsArg = Spaced(text: string) | Listed(names: seq<string>)

  /** The callback: it receives the trimmed name, its index among the raw
      tokens and the raw tokens; `None` stands for a falsy result. */
  type Transform<T> = (string, nat, seq<string>) -> Option<T>

  /** The raw tokens: a string is split on " ", an array is used as given. */
  function Tokens(events: EventsArg): seq<string> {
    if events.Spaced? then Split(events.text) else events.names
  }

  /** What the parser has collected after the first `n` raw tokens. */
  function Collect<T>(tokens: seq<string>, cb: Transform<T>, n: nat): (r: seq<T>)
    requires n <= |tokens|
    ensures |r| <= n
  {
    if n == 0 then []
    else
      var prior := Collect(tokens, cb, n - 1);
      var name := Trim(tokens[n - 1]);
      if name == [] then prior
      else
        var mapped := cb(name, n - 1, tokens);
        if mapped.Some? then prior + [mapped.value] else prior
  }

  function MapAndFilter<T>(events: EventsArg, cb: Transform<T>): seq<T> {
    Collect(Tokens(events), cb, |Tokens(events)|)
  }

  /** The callback the attach and remove operations do without: the name is
      kept as it is. */
  function KeepName(name: string, index: nat, tokens: seq<string>): Option<string> {
    Some(name)
  }

  /** The trimmed, non-empty names among the first `n` raw tokens. */
  function Kept(tokens: seq<string>, n: nat): seq<string>
    requires n <= |tokens|
  {
    if n == 0 then []
    else
      var prior := Kept(tokens, n - 1);
      var name := Trim(tokens[n - 1]);
      if name == [] then prior else prior + [name]
  }

  /** The parsed event names, as `add`, `once` and `remove` use them. */
  function Names(events: EventsArg): seq<string> {
    Kept(Tokens(events), |Tokens(events)|)
  }

  /** Leaving the callback out is passing KeepName. */
  lemma {:induction false} CollectKeepName(tokens: seq<string>, n: nat)
    requires n <= |tokens|
    ensures Collect(tokens, KeepName, n) == Kept(tokens, n)
  {
    if n > 0 {
      CollectKeepName(tokens, n - 1);
    }
  }

  lemma NamesWithoutCallback(events: EventsArg)
    ensures MapAndFilter(events, KeepName) == Names(events)
  {
    CollectKeepName(Tokens(events), |Tokens(events)|);
  }

  /** Every name is non-empty and already trimmed. */
  predicate Trimmed(names: seq<string>) {
    forall k :: 0 <= k < |names| ==> names[k] != [] && Trim(names[k]) == names[k]
  }

  /** Parsing yields only non-empty, trimmed names. */
  lemma NamesAreTrimmed(events: EventsArg)
    ensures Trimmed(Names(events))
  {
    KeptTrimmed(Tokens(events), |Tokens(events)|);
  }

  lemma {:induction false} KeptTrimmed(tokens: seq<string>, n: nat)
    requires n <= |tokens|
    ensures Trimmed(Kept(tokens, n))
  {
    if n > 0 {
      KeptTrimmed(tokens, n - 1);
      TrimIdempotent(tokens[n - 1]);
    }
  }

  /** `_mapAndFilterEvents(events, cb)`: the loop over the raw tokens. */
  method MapAndFilterEvents<T>(events: EventsArg, cb: Transform<T>) returns (result: seq<T>)
    ensures result == MapAndFilter(events, cb)
  {
    var eventNames := if events.Spaced? then Split(events.text) else events.names;
    assert eventNames == Tokens(events);
    result := [];
    var i, n := 0, |eventNames|;
    while i < n
      invariant 0 <= i <= n == |eventNames|
      invariant result == Collect(eventNames, cb, i)
    {
      CollectNext(eventNames, cb, i);
      var eventName := Trim(eventNames[i]);
      if eventName == [] {
        i := i + 1;
        continue;
      }
      var mapped := cb(eventName, i, eventNames);
      if mapped.Some? {
        result := result + [mapped.value];
      }
      i := i + 1;
    }
  }

  lemma CollectNext<T>(tokens: seq<string>, cb: Transform<T>, i: nat)
    requires i < |tokens|
    ensures Trim(tokens[i]) == [] ==> Collect(tokens, cb, i + 1) == Collect(tokens, cb, i)
    ensures Trim(tokens[i]) != [] && cb(Trim(tokens[i]), i, tokens).Some? ==>
              Collect(tokens, cb, i + 1) == Collect(tokens, cb, i) + [cb(Trim(tokens[i]), i, tokens).value]
    ensures Trim(tokens[i]) != [] && cb(Trim(tokens[i]), i, tokens).None? ==>
              Collect(tokens, cb, i + 1) == Collect(tokens, cb, i)
  {
  }

  /** There are never more results than parsed names. */
  lemma {:induction false} CollectAtMostKept<T>(tokens: seq<string>, cb: Transform<T>, n: nat)
    requires n <= |tokens|
    ensures |Collect(tokens, cb, n)| <= |Kept(tokens, n)|
  {
    if n > 0 {
      CollectAtMostKept(tokens, cb, n - 1);
    }
  }

  /** The callback only ever sees trimmed, non-empty tokens, and each result
      is what it made of one of them. */
  lemma {:induction false} CollectFromCallback<T>(tokens: seq<string>, cb: Transform<T>, n: nat)
    requires n <= |tokens|
    ensures forall y :: y in Collect(tokens, cb, n) ==>
              exists k :: 0 <= k < n && Trim(tokens[k]) != [] && cb(Trim(tokens[k]), k, tokens) == Some(y)
  {
    if n > 0 {
      CollectFromCallback(tokens, cb, n - 1);
      var prior := Collect(tokens, cb, n - 1);
      forall y | y in Collect(tokens, cb, n)
        ensures exists k :: 0 <= k < n && Trim(tokens[k]) != [] && cb(Trim(tokens[k]), k, tokens) == Some(y)
      {
        if y in prior {
          var k :| 0 <= k < n - 1 && Trim(tokens[k]) != [] && cb(Trim(tokens[k]), k, tokens) == Some(y);
        } else {
          assert Trim(tokens[n - 1]) != [] && cb(Trim(tokens[n - 1]), n - 1, tokens) == Some(y);
        }
      }
    }
  }

  /** With any callback, the parser returns at most as many items as there
      are parsed names, each made by the callback from a non-empty trimmed
      token. */
  lemma MapAndFilterFromNames<T>(events: EventsArg, cb: Transform<T>)
    ensures |MapAndFilter(events, cb)| <= |Names(events)|
    ensures var tokens := Tokens(events);
            forall y :: y in MapAndFilter(events, cb) ==>
              exists k :: 0 <= k < |tokens| && Trim(tokens[k]) != [] && cb(Trim(tokens[k]), k, tokens) == Some(y)
  {
    CollectAtMostKept(Tokens(events), cb, |Tokens(events)|);
    CollectFromCallback(Tokens(events), cb, |Tokens(events)|);
  }

  /** What one raw token contributes: its trim, unless that is empty. */
  function Contribution(token: string): seq<string> {
    if Trim(token) == [] then [] else [Trim(token)]
  }

  lemma KeptStep(tokens: seq<string>, n: nat)
    requires 0 < n <= |tokens|
    ensures Kept(tokens, n) == Kept(tokens, n - 1) + Contribution(tokens[n - 1])
  {
  }

  /** The names among the first `n` tokens depend on those tokens only. */
  lemma {:induction false} KeptPrefix(tokens: seq<string>, n: nat)
    requires n <= |tokens|
    ensures Kept(tokens, n) == Kept(tokens[..n], n)
    decreases n
  {
    if n > 0 {
      KeptPrefix(tokens, n - 1);
      KeptPrefix(tokens[..n], n - 1);
      assert tokens[..n][..n - 1] == tokens[..n - 1];
      KeptStep(tokens, n);
      KeptStep(tokens[..n], n);
    }
  }

  lemma KeptPrefixOf(b: seq<string>)
    requires b != []
    ensures Kept(b[..|b| - 1], |b[..|b| - 1]|) == Kept(b, |b| - 1)
  {
    var n := |b| - 1;
    var p := b[..n];
    assert |p| == n;
    KeptPrefix(b, n);
    assert Kept(b, n) == Kept(p, n);
  }

  /** Parsing is order-preserving and token-wise: the names of `a + b` are the
      names of `a` followed by the names of `b`. */
  lemma NamesAppend(a: seq<string>, b: seq<string>)
    ensures Names(Listed(a + b)) == Names(Listed(a)) + Names(Listed(b))
  {
    KeptAppend(a, b);
  }

  lemma {:induction false} KeptAppend(a: seq<string>, b: seq<string>)
    ensures Kept(a + b, |a + b|) == Kept(a, |a|) + Kept(b, |b|)
    decreases |b|
  {
    if b == [] {
      assert a + b == a;
    } else {
      var b' := b[..|b| - 1];
      var ab := a + b;
      var t := b[|b| - 1];
      assert ab[..|ab| - 1] == a + b';
      assert ab[|ab| - 1] == t;
      calc {
        Kept(ab, |ab|);
        { KeptStep(ab, |ab|); }
        Kept(ab, |ab| - 1) + Contribution(t);
        { KeptPrefix(ab, |ab| - 1); }
        Kept(a + b', |a + b'|) + Contribution(t);
        { KeptAppend(a, b'); }
        Kept(a, |a|) + Kept(b', |b'|) + Contribution(t);
        { KeptPrefixOf(b); }
        Kept(a, |a|) + Kept(b, |b| - 1) + Contribution(t);
        { SeqAssoc(Kept(a, |a|), Kept(b, |b| - 1), Contribution(t)); }
        Kept(a, |a|) + (Kept(b, |b| - 1) + Contribution(t));
        { KeptStep(b, |b|); }
        Kept(a, |a|) + Kept(b, |b|);
      }
    }
  }

  lemma SeqAssoc<T>(x: seq<T>, y: seq<T>, z: seq<T>)
    ensures x + y + z == x + (y + z)
  {
  }

  /** One token gives its trim, unless the trim is empty. */
  lemma NamesSingle(t: string)
    ensures Names(Listed([t])) == Contribution(t)
  {
    KeptStep([t], 1);
  }

  /** A string input is treated exactly like the array of its pieces, so two
      strings joined by a space parse to the two parses one after the other. */
  lemma NamesSpacedAppend(a: string, b: string)
    ensures Names(Spaced(a + " " + b)) == Names(Spaced(a)) + Names(Spaced(b))
  {
    SplitAtSpace(a, b);
    NamesAppend(Split(a), Split(b));
  }

  /** Tokens whose trim is empty contribute nothing. */
  lemma NamesOfBlankTokens(tokens: seq<string>)
    requires forall k :: 0 <= k < |tokens| ==> AllWhitespace(tokens[k])
    ensures Names(Listed(tokens)) == []
  {
    KeptBlank(tokens, |tokens|);
  }

  lemma {:induction false} KeptBlank(tokens: seq<string>, n: nat)
    requires n <= |tokens| && forall k :: 0 <= k < n ==> AllWhitespace(tokens[k])
    ensures Kept(tokens, n) == []
  {
    if n > 0 {
      KeptBlank(tokens, n - 1);
      TrimEmptyIff(tokens[n - 1]);
    }
  }

  /** A whitespace-only (or empty) string yields no names at all. */
  lemma NamesOfBlankString(s: string)
    requires AllWhitespace(s)
    ensures Names(Spaced(s)) == []
  {
    SplitAllWhitespace(s);
    NamesOfBlankTokens(Split(s));
  }

  /** A word without spaces or whitespace. */
  predicate PlainWord(w: string) {
    w != [] && forall k :: 0 <= k < |w| ==> !IsWhitespace(w[k])
  }

  lemma NamesOfPlainWord(w: string)
    requires PlainWord(w)
    ensures Names(Spaced(w)) == [w] && Names(Listed([w])) == [w]
  {
    TrimOfTrimmed(w);
    NamesSingle(w);
    assert ' ' !in w by {
      assert IsWhitespace(' ');
    }
    SplitSpaceless(w);
  }

  /** Two words given as `'load click'` or as `['load', 'click']` give the
      same names, in the same order. */
  lemma TwoWords(a: string, b: string)
    requires PlainWord(a) && PlainWord(b)
    ensures Names(Spaced(a + " " + b)) == [a, b]
    ensures Names(Listed([a, b])) == [a, b]
  {
    NamesOfPlainWord(a);
    NamesOfPlainWord(b);
    NamesAppend([a], [b]);
    assert [a] + [b] == [a, b];
    NamesSpacedAppend(a, b);
  }

  /** `[' click  ', '']` gives just `['click']`. */
  lemma PaddedAndEmpty()
    ensures Names(Listed([" click  ", ""])) == ["click"]
  {
    TrimPaddedClick();
    NamesSingle(" click  ");
    NamesSingle("");
    NamesAppend([" click  "], [""]);
    assert [" click  "] + [""] == [" click  ", ""];
  }

  lemma TrimPaddedClick()
    ensures Trim(" click  ") == "click"
  {
    assert !IsWhitespace('c') && IsWhitespace(' ');
    assert TrimStart(" click  ") == TrimStart("click  ") by {
      assert " click  "[1..] == "click  ";
    }
    assert TrimEnd("click  ") == TrimEnd("click ") by {
      assert "click  "[..6] == "click ";
    }
    assert TrimEnd("click ") == "click" by {
      assert "click "[..5] == "click";
      assert !IsWhitespace('k');
    }
  }
}
