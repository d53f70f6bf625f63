# lski-events: listener bookkeeping and delegation, modelled in Dafny

lski-events is a small browser library, `src/lski-events.js`. Its public
object offers `add`/`on`, `once`/`one`, `remove`/`off`, `fire`/`trigger` and
`query`. This project models the part with real logic:

- **Event-name parser** (`_mapAndFilterEvents`). A string argument is split
  on the space character; an array is used as given. Each token is trimmed,
  and empty tokens are dropped. An optional callback transforms each
  surviving name, and a falsy result drops that name too.
- **Element resolver** (`_forEachElements`). A string goes through `query`.
  A value with a truthy `length` is used as it is. Anything else is wrapped
  as a one-element list. A zero-length collection is wrapped this way too,
  so the per-element callback later calls `addEventListener` or
  `removeEventListener` on the collection and throws a TypeError.
- **Selector matching**. This covers the `_matches` fallback (a backward
  scan of the query result scoped to the node's parent) and `_bubbleCheck`.
  `_bubbleCheck` walks from an event's target up through `parentElement` to
  the nearest match, never returning the delegation root.
- **Listener registry** (`_listeners`). This is a module-wide list of
  `{element, eventName, original, wrapper}` records with `add`, `find` and
  `remove`. Records are objects, and `remove` deletes one by identity.
- **Public operations**. `add` chooses direct or delegated attach by its
  argument count. `_addDirect`, `_addDelegated` and `once` make one wrapper
  closure per element, then one registry record and one native listener per
  event name. `remove` looks each (element, name, handler) up in the
  registry. When it finds a record, it detaches that record's wrapper and
  deletes the record. Otherwise it detaches the handler itself.
- **Wrappers firing**. What a direct, delegated or one-shot wrapper does
  when the browser calls it. A one-shot wrapper then calls `off` with
  *itself* as the handler. The registry lookup therefore misses, the wrapper
  is detached natively, and the handler's registry records stay behind.

The browser is represented by values:

- The document is a parent map with a depth measure that rules out cycles.
- `querySelectorAll` and the native `matches` are uninterpreted functions.
- The native listener lists are a `Host` object holding a sequence of
  (node, event type, callback) entries. Adding an identical entry twice
  keeps one, as the DOM does.
- Handlers and wrappers are numbered callbacks. Wrapper closures are
  recorded, in creation order, on the `Events` object, so firing a wrapper
  can be described by what its closure holds.

Modules: `Wrappers` (Option), `Text` (trim and split), `EventNames` (the
parser), `Dom` (tree, targets, native listener lists), `Matching`
(`_matches`, `_bubbleCheck`), `Elements` (`_forEachElements`), `Registry`
(`_listeners`), `Plans` (what attach and remove do, as functions) and
`Events` (the public object).

Where the library's own documentation and its code disagree, the model
follows the code:

- Strings are split on `" "` only, not on all whitespace. A tab stays
  inside its token unless it is at the token's edge, where trimming
  removes it.
- Nothing keeps records unique per (element, name, handler). Adding the
  same handler twice pushes two records. `remove` takes out the first one
  only.
- A one-shot wrapper does not delete its own registry record (see above).
- The internal calls go to the module's own `query` function. Replacing
  `events.query` does not change what they find, so the model has one
  query function in the tree.
- Only a truthy `length` makes the argument a collection. An empty
  collection is wrapped as a single target.

## Model

| member | source | states |
|---|---|---|
| `Text.Trim` | src/lski-events.js:241 | the trimmed name neither starts nor ends with a whitespace character |
| `Text.TrimIsSlice` | src/lski-events.js:241 | the trimmed name is a contiguous slice of the token, with only whitespace cut off on either side |
| `Text.TrimIdempotent` | src/lski-events.js:241 | trimming a trimmed name changes nothing |
| `Text.TrimEmptyIff` | src/lski-events.js:244-246 | a token trims to the empty string exactly when it is all whitespace, so exactly those tokens are skipped |
| `Text.JoinSplit` | src/lski-events.js:232 | splitting on " " loses nothing: joining the pieces with " " gives back the string |
| `Text.SplitJoin` | src/lski-events.js:232 | splitting the join of space-free pieces gives back the pieces |
| `Text.SplitNoSpaces` | src/lski-events.js:232 | no piece of a split contains a space |
| `Text.SplitAtSpace` | src/lski-events.js:232 | splitting `a + " " + b` is splitting `a`, then `b` |
| `EventNames.MapAndFilterEvents` | src/lski-events.js:230-258 | the loop collects, in token order, the callback's non-falsy results on the trimmed non-empty tokens, with each token's index and the raw tokens passed along |
| `EventNames.NamesWithoutCallback` | src/lski-events.js:248-250 | without a callback the result is exactly the trimmed non-empty tokens |
| `EventNames.MapAndFilterFromNames` | src/lski-events.js:244-253 | with any callback there are at most as many results as parsed names, and each result is the callback's output on a non-empty trimmed token, at that token's index |
| `EventNames.NamesAreTrimmed` | src/lski-events.js:238-246 | every parsed name is non-empty and already trimmed |
| `EventNames.NamesAppend` | src/lski-events.js:236-255 | parsing is order-preserving and compositional: the names of `a + b` are the names of `a` followed by those of `b` |
| `EventNames.NamesSpacedAppend` | src/lski-events.js:232 | the names of `a + " " + b` are the names of `a` followed by those of `b` |
| `EventNames.NamesOfBlankString` | src/lski-events.js:244-246 | a whitespace-only string yields no names, so an attach with it adds nothing |
| `EventNames.NamesOfBlankTokens` | src/lski-events.js:244-246 | an array of whitespace-only tokens yields no names |
| `EventNames.TwoWords` | test/index.js:191-211 | `'load click'` and `['load', 'click']` both parse to the same two names |
| `EventNames.PaddedAndEmpty` | test/index.js:231 | `[' click  ', '']` parses to `['click']` |
| `Elements.Resolve` | src/lski-events.js:269-273 | a selector gives the document query's nodes in order; a non-empty collection gives its items in order; a single element or an empty collection gives a one-element list; the list is all nodes unless it is a wrapped empty collection |
| `Matching.FallbackMatches` | src/lski-events.js:294-305 | the backward scan answers true exactly when the node is among the query results scoped to its parent |
| `Matching.ChainLinks` | src/lski-events.js:336-337 | the walk's chain links each node to its `parentElement` and ends at a node without one |
| `Matching.BubbleCheck` | src/lski-events.js:322-341 | a non-null result is not the root, matches the selector and lies on the target's chain of ancestors |
| `Matching.BubbleCheckAt` | src/lski-events.js:322-341 | the result is the `k`-th node of the chain exactly when that node is not the root and matches, and no node before it is the root or a match |
| `Matching.BubbleCheckNull` | src/lski-events.js:325-340 | the result is null exactly when the walk reaches the root or the top of the tree before any match |
| `Registry.FindFirst` | src/lski-events.js:372-384 | the result is a record keyed by (element, eventName, original), and null exactly when no record is |
| `Registry.FindFirstAt` | src/lski-events.js:374-381 | the record at `i` is found when it is keyed by the triple and no earlier record is |
| `Registry.RemoveFirst` | src/lski-events.js:359-370 | a present record is taken out once, the rest kept as a multiset; an absent record leaves the list as it is |
| `Registry.RemoveFirstAt` | src/lski-events.js:361-366 | removing the first occurrence, at `i`, keeps every other record in order |
| `Registry.Listeners.Add` | src/lski-events.js:355-357 | one new record with the given fields at the end, earlier records unchanged, the new length returned |
| `Registry.Listeners.Find` | src/lski-events.js:372-384 | the scan returns the first record keyed by the triple, or null, and changes nothing |
| `Registry.Listeners.Remove` | src/lski-events.js:359-370 | true exactly when the record was present; the first occurrence of that very record is spliced out |
| `Dom.Attach` | src/lski-events.js:78 | the native list afterwards holds what it held plus the new listener: unchanged when an identical listener is already there, one entry longer at the end otherwise |
| `Dom.Detach` | src/lski-events.js:158 | the native list afterwards holds everything except that listener |
| `Dom.DetachAllUndoesAttachAll` | src/lski-events.js:158 | detaching listeners that were not there before they were attached gives back the list exactly |
| `Dom.Host.AddEventListener` | src/lski-events.js:78 | the native list is the old one with the listener attached |
| `Dom.Host.RemoveEventListener` | src/lski-events.js:162 | the native list is the old one with the listener detached |
| `Plans.PlannedLength` | src/lski-events.js:76-79 | an attach call on nodes plans one record for each element and name: the number of elements times the number of names |
| `Plans.PlannedAt` | src/lski-events.js:76-79 | with `n` names, the record at `i * n + j` is for element `i` and name `j`, has the caller's handler as original and element `i`'s wrapper |
| `Plans.PlannedPairs` | src/lski-events.js:133-136 | the planned records line up one to one with the (element, name) pairs that `remove` visits |
| `Plans.RemoveStep` | src/lski-events.js:155-163 | one pass of `remove` never adds a record or a native listener, and it throws exactly for a target that is not a node |
| `Plans.ThrownStays` | src/lski-events.js:151-165 | once a pass has thrown, nothing further changes |
| `Plans.RemoveAllShrinks` | src/lski-events.js:151-165 | `remove` leaves only records and native listeners that were there before |
| `Plans.RemoveStepFinds` | src/lski-events.js:155-160 | when the first record keyed by the pair is found, exactly that record goes and its wrapper is detached |
| `Plans.RemoveStepMisses` | src/lski-events.js:161-163 | when no record is keyed by the pair, the registry is unchanged and the raw handler is detached |
| `Plans.RemoveUndoesAttach` | src/lski-events.js:147-166 | removing with the same elements, names and handler gives back the registry and the native lists that existed before the attach, provided that (1) no earlier record of the handler is keyed by any of the visited (element, name) pairs and (2) none of the new wrappers was attached before (every wrapper already attached has a smaller number) |
| `Plans.WrapperRemoveMisses` | src/lski-events.js:130 | `off` called with a wrapper as the handler leaves the registry alone and detaches the wrapper name by name |
| `Events.OneShotRemoval` | src/lski-events.js:128-131 | a one-shot wrapper's self-removal keeps every registry record and leaves the wrapper attached nowhere |
| `Events.AddRemoveRoundTrip` | test/index.js:76-77 | after an attach on nodes, `remove` with the same handler restores the registry and the native lists exactly, provided that the handler had no record for any of those elements and names before |
| `Events.GrewCompose` | src/lski-events.js:279-282 | the element loop's effect on the first `i` elements, followed by element `i`'s, is its effect on the first `i + 1` |
| `Events.Events.constructor` | src/lski-events.js:344-353 | the registry starts empty and the state is valid |
| `Events.Events.AttachOne` | src/lski-events.js:77-78 | one record with the handler and the element's wrapper, then the native attach, which throws exactly for a target that is not a node |
| `Events.Events.AttachElement` | src/lski-events.js:76-79 | one record per name in order and the wrapper attached for every name; on a target that is not a node, one record and a throw |
| `Events.Events.RegisterOne` | src/lski-events.js:66-82 | one new wrapper closure for the element, with its records and native listeners |
| `Events.Events.Register` | src/lski-events.js:279-282 | the attach callback over the resolved list: one wrapper per element, the planned records, the planned native listeners; a throw exactly for a wrapped empty collection with some name |
| `Events.Events.RegisterEach` | src/lski-events.js:279-282 | over a list of nodes, all the planned records, all new, and all the planned native listeners |
| `Events.Events.AddDirect` | src/lski-events.js:62-83 | attaches direct wrappers for the parsed names and returns the resolved list, or throws |
| `Events.Events.AddDelegated` | src/lski-events.js:85-113 | attaches delegated wrappers for the parsed names and returns the resolved list, or throws |
| `Events.Events.Once` | src/lski-events.js:122-138 | attaches one-shot wrappers for the parsed names and returns the resolved list, or throws |
| `Events.Events.Add` | src/lski-events.js:48-60 | three arguments, or four with a null third, attach directly; four with a selector attach by delegation; both return the resolved list unless they throw; any other count changes nothing and returns undefined |
| `Events.Events.DetachOne` | src/lski-events.js:155-163 | one pass of `remove` for one element and name, as `Plans.RemoveStep` describes it |
| `Events.Events.DetachElement` | src/lski-events.js:153-164 | the passes over the element's names in order, stopping at the first throw |
| `Events.Events.Unregister` | src/lski-events.js:279-282 | the detach callback over the resolved list, pair by pair, stopping at the first throw |
| `Events.Events.Remove` | src/lski-events.js:147-166 | the registry and native lists afterwards are those of `remove` over every (element, name) pair; TypeError exactly when a pass threw, the resolved list otherwise |
| `Events.Events.Fire` | src/lski-events.js:68-131 | a direct or one-shot wrapper calls the handler on its element; a delegated one calls it on the `_bubbleCheck` match or not at all; a one-shot wrapper then detaches itself everywhere while its records stay |
| `Events.Events.AddThenRemove` | test/index.js:76-77 | `add` then `remove` with the same arguments on nodes leaves the registry and the native lists as they were, and both calls return the resolved list, provided that the handler had no record for any of the resolved elements and parsed names before |

## Left out

- The UMD/AMD/CommonJS wrapper (src/lski-events.js:2-20) is module registration, not behaviour.
- `fire`/`trigger` and `_createEvent` (src/lski-events.js:174-224) build and dispatch host event objects through `CustomEvent`, `createEvent` or `createEventObject`. The model describes only what a wrapper does once the browser calls it (`Events.Events.Fire`).
- `query` (src/lski-events.js:196-198) is a call to `querySelectorAll`. It is an uninterpreted function of the selector and the scope.
- The native `matches` and its vendor-prefixed variants (src/lski-events.js:294) belong to the browser. They are an optional uninterpreted predicate, and the fallback scan is modelled.
- The `String.prototype.trim` polyfill (src/lski-events.js:389-393): trimming uses a fixed set of ECMAScript whitespace characters, with no regular expressions.
- `event.delegateTarget` and the `arguments` passed to `handler.apply` (src/lski-events.js:71-73, 94, 103): event objects are not modelled. The model records which handler runs and which element `this` is bound to.
- Non-string entries in an array of event names: the model's array holds strings only. The `typeof` guard at src/lski-events.js:240 only matters for other kinds of values.
- An `elements` argument that is neither a string, a collection nor a single element is not modelled. This includes an element with its own truthy `length`, such as a form, which the resolver would iterate as a collection.
- The callback that `fire` hands to the parser (`_createEvent`, src/lski-events.js:176-178) is not modelled. `MapAndFilterEvents` takes any callback.
- A malformed selector makes `querySelectorAll` or the native `matches` throw a SyntaxError (src/lski-events.js:197, reached from 270 and 298; and 294). `Tree.query` and `nativeMatches` are total functions, so `add` or `remove` with a bad selector string, and a delegated wrapper's walk, never throw in the model.
- The one-shot wrapper keeps a reference to the caller's `event` argument (src/lski-events.js:122, 130), and `off` parses it again when the wrapper fires. The model stores its value (`OneShot(events)`). An array the caller changes after `once` is therefore not modelled; such a change can leave the wrapper attached so that the handler runs again.
- An `events` argument that is neither a string nor an array is not modelled: `undefined` or `null` throws at `.length` (src/lski-events.js:236), and a number yields no names.
- The fallback's scope is `element.parentNode` (src/lski-events.js:298). The model reads it from the parent-element map, so a node whose parent is a document fragment or a shadow root is queried against the whole document instead of the fragment.
- Array lengths are unbounded integers. The 2^32 − 1 limit on JavaScript arrays is not modelled.
- `Events.Events.Fire`: it requires the wrapper to be attached at the node where the event is dispatched, because the browser only calls attached listeners. The order in which several listeners run is not modelled.
- `Events.Events.Fire`: it assumes that the handler returns normally and does not call the library. A handler that throws inside a one-shot wrapper (src/lski-events.js:129) skips the `off` call on the next line, so that wrapper stays attached and runs again on the next event; the model always detaches it. A handler that calls `add`, `once` or `remove` changes the registry and the native lists that `off` then works on; the model does not run the handler, so its `off` works on the state as it was when the wrapper was called.
- `Dom.NativeEntry`: it has no capture flag, because the library always passes `false` (src/lski-events.js:78, 110, 135, 158, 162). A listener that other page code attached with capture `true` is a different listener for the browser, so the fallback `removeEventListener(name, handler, false)` at src/lski-events.js:162 leaves it attached; in the model that fallback would detach it.
- `Events.AddRemoveRoundTrip`: it requires that the handler had no record before the attach for any of the elements and names it visits. With such an older record, `remove` finds that one first, so the round trip does not restore the state exactly. Records of the handler for other elements or names are allowed.
- `Events.Events.AddThenRemove`: it states the round trip only when every resolved target is a node and the handler has no earlier record for any of those elements and names. Otherwise it states only that the state stays valid.
- `Events.Events.Once`: the one-shot wrapper calls `events.off`, a property of the public object that a caller could replace. The model calls the library's own `remove`.
