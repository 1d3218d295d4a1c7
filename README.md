# The array helpers of `src/array.ts`, modelled in Dafny

This project models the three runtime list helpers of `src/array.ts`:

- `toArray` normalises `null`/`undefined`, a single value or an array into an array.
- `deduplicatArray` walks an array once. It keeps a `Set` of refs already seen and keeps an item only when its ref is new. The ref is computed by `getItemRef` and tested by `refInRefSet`. It is the item itself, the array of its values for one field name or a list of field names, or the result of a callback.
- `sortArrayAsAnother` builds a ref→source `Map`, where the last write wins. It then walks the reference array and pushes each looked-up source item that is truthy.

Files:

- `to_array.dfy` (module `Normalize`): `toArray` over the datatype `Arrayable` = `Absent | Single | Many`.
- `deduplicate.dfy` (module `Deduplicate`): the ref datatype `Ref` = `Scalar(key) | Composite(keys)`. `Array.isArray(refs)` is the only test the source makes on a ref, and here it is the constructor tag. The strategy datatype is `ItemRef` = `NoRef | Field | FieldList | Callback`. `getItemRef` and `deduplicatArray` are methods with loops. Each is proved equal to a specification function: `ItemRefOf`, and `Scan`/`Deduplicated`. The properties of the walk are proved about `Scan` for any ref function.
- `sort_as_another.dfy` (module `SortAsAnother`): `sortArrayAsAnother` is a method with two loops, proved equal to `SortedAsAnother`. The map it builds is `TempMap`, and the pushes are `Pushed`. The properties are stated against the source array itself, using `LastIndex`, the last source item with a given ref.
- `deduplicate_examples.dfy`, `sort_as_another_examples.dfy`: worked inputs, proved.

JavaScript values that end up in a `Set` or a `Map` are modelled by a type parameter `K` with equality. How an item looks when used as its own ref is a parameter:

- `ItemView.itself` for `deduplicatArray`. It gives a `Composite` when the item is itself an array.
- `sourceItself` and `referenceItself` for `sortArrayAsAnother`.

`item[key]` is `ItemView.get`. JavaScript truthiness of a looked-up source item is the parameter `truthy`. A key missing from the map yields `undefined`, which is falsy. Arrays are Dafny sequences, which are values. So the source array is never changed, and every result is a new sequence.

Three consequences of the code are worth stating plainly:

- Composite refs are tested per component against one shared set. So `[{a:1,b:2},{a:1,b:3},{a:4,b:2}]` deduplicated on `['a','b']` keeps all three records, because each later record brings one new value (`3`, then `4`) (`DeduplicateExamples.PerComponentKeepsAll`).
- Kept items may therefore share ref components. Each kept item brings at least one component not seen before (`Deduplicate.KeptBringsNew`).
- `sortArrayAsAnother` drops a matched source item that is falsy, just as it drops an unmatched reference item (`SortAsAnotherExamples.FalsyMatchDropped`).

## Model

| member | source | states |
|---|---|---|
| `Normalize.ToArray` | src/array.ts:13-16 | absent gives `[]`; an array is returned unchanged, same elements in the same order; any other value gives the one-element array `[value]` |
| `Normalize.ToArrayShape` | src/array.ts:13-16 | only an array argument yields more than one element; the result is empty exactly for an absent value or an empty array |
| `Normalize.ToArrayIdempotent` | src/array.ts:13-16 | normalising an already normalised value returns it unchanged |
| `Deduplicate.RefInRefSet` | src/array.ts:49-54 | an array ref is in the set exactly when every component is a member (vacuously true for `[]`); a single ref exactly when it is a member; both are "all components are in the set" |
| `Deduplicate.FieldValues` | src/array.ts:36-41 | the values pushed for the field names have the same length as the names, and the i-th is `item[names[i]]` |
| `Deduplicate.ItemRefOf` | src/array.ts:25-47 | a callback's result is the ref; one field name gives the one-element array `[item[name]]`; a field list gives the array of the item's values for those names, in order; otherwise the ref is the item itself |
| `Deduplicate.RefKeys` | src/array.ts:33 | `toArray(itemRef)` turns one field name into the one-element list `[name]` and leaves a field list unchanged |
| `Deduplicate.GetItemRef` | src/array.ts:25-47 | the loop that pushes `item[key]` for each normalised key returns exactly the ref `ItemRefOf` describes |
| `Deduplicate.AddEach` | src/array.ts:62-64 | adding every component of an array ref one by one grows the set by exactly the ref's components |
| `Deduplicate.Scan` | src/array.ts:56-72 | the walk over the items in order keeps no more items than it is given; its further properties are the lemmas below |
| `Deduplicate.DeduplicatArray` | src/array.ts:21-75 | the single pass with its `refSet` returns exactly the kept items of the walk `Scan`, whose properties are the lemmas below |
| `Deduplicate.ScanAppend` | src/array.ts:56-72 | one more item: it is skipped when its ref is in the set, and otherwise it is appended and all its components are added |
| `Deduplicate.KeepStep` | src/array.ts:58-65 | an item with at least one component not yet seen is kept, and every component of its ref joins the set |
| `Deduplicate.SkipStep` | src/array.ts:58-60 | an item all of whose components are already seen is dropped, and the set does not change |
| `Deduplicate.KeptComponents` | src/array.ts:62-64 | the union of the kept items' ref components contains each kept item's components and nothing else |
| `Deduplicate.SeenIsKeptComponents` | src/array.ts:56-72 | at every point the set equals the union of the components of the kept items only; dropped items never add to it |
| `Deduplicate.DropRule` | src/array.ts:49-65 | an item is dropped exactly when every component of its ref already belongs to the refs of the items kept before it |
| `Deduplicate.KeptIsSubsequence` | src/array.ts:56-74 | the output is the input restricted to strictly increasing positions; a position is among them exactly when the walk keeps that item; the output is no longer than the input |
| `Deduplicate.EmptyInput` | src/array.ts:22-23 | empty input gives empty output |
| `Deduplicate.EveryItemCovered` | src/array.ts:56-72 | after the walk, every input item's ref components, kept or not, are in the set |
| `Deduplicate.KeptCoverInput` | src/array.ts:56-72 | every ref component that occurs in the input is a component of some kept item's ref |
| `Deduplicate.KeptBringsNew` | src/array.ts:58-71 | each kept item has a ref component that is not among the components of the items kept before it |
| `Deduplicate.KeptRefsDistinct` | src/array.ts:56-72 | no two kept items have equal refs |
| `Deduplicate.ScanFixpoint` | src/array.ts:56-72 | walking the output again keeps every item and ends with the same set |
| `Deduplicate.DeduplicatedIdempotent` | src/array.ts:21-75 | for a fixed `itemRef`, deduplicating the output again returns it unchanged |
| `Deduplicate.ScalarSeen` | src/array.ts:66-71 | when all refs are single keys, the set holds exactly the keys met so far |
| `Deduplicate.ScalarKeepsFirstOccurrence` | src/array.ts:66-71 | when all refs are single keys, an item is kept exactly when no earlier item has an equal ref (its first occurrence) |
| `Deduplicate.ScalarExactlyOneKept` | src/array.ts:66-71 | when all refs are single keys, every ref in the input has exactly one kept item with that ref |
| `Deduplicate.NoComponentsKeepsNothing` | src/array.ts:49-60 | when every ref is the empty array, `every` is vacuously true and the output is empty |
| `Deduplicate.EmptyFieldListDropsAll` | src/array.ts:28-60 | an empty field list drops every item |
| `Deduplicate.EmptyCallbackDropsAll` | src/array.ts:26-60 | a callback that returns `[]` for every item drops every item |
| `DeduplicateExamples.SingleRef` | src/array.ts:29-43 | the single field name `"a"` gives the ref `[item.a]` |
| `DeduplicateExamples.PairRef` | src/array.ts:30-43 | the field list `["a","b"]` gives the ref `[item.a, item.b]` |
| `DeduplicateExamples.FirstAndThirdKept` | src/array.ts:56-72 | refs `[1]`, `[1]`, `[2]` keep the first and the third item |
| `DeduplicateExamples.ByOneField` | src/array.ts:21-75 | with `'a'`, records with `a` = 1, 1, 2 keep the first and the third |
| `DeduplicateExamples.AllThreeKept` | src/array.ts:56-72 | refs `[1,2]`, `[1,3]`, `[4,2]` keep all three items |
| `DeduplicateExamples.PerComponentKeepsAll` | src/array.ts:49-65 | `{a:1,b:2}`, `{a:1,b:3}`, `{a:4,b:2}` on `['a','b']` keep all three, because the test is per component |
| `DeduplicateExamples.SecondCovered` | src/array.ts:56-72 | refs `[1,5]` then `[5,1]` keep only the first |
| `DeduplicateExamples.FieldsCollide` | src/array.ts:49-65 | `{a:1,b:5}` then `{a:5,b:1}` on `['a','b']` keep only the first: values of different fields share one set |
| `SortAsAnother.RefFn` | src/array.ts:105-107 | the ref function in use is the configured `getRefFromSource`/`getRefFromReference` when one is given, and otherwise the item itself (also lines 114-116) |
| `SortAsAnother.LastIndex` | src/array.ts:104-111 | the position of the last source item with a given ref: that item has the ref and no later item has it; -1 when no item has it |
| `SortAsAnother.TempMap` | src/array.ts:104-111 | the map built by `reduce` has a key for every source item's ref and no other keys, and each key maps to a source item that has that ref |
| `SortAsAnother.Pushed` | src/array.ts:113-122 | the `forEach` pushes at most one item per reference item, and every pushed item is truthy and is the map's item for some key |
| `SortAsAnother.TempMapLastWins` | src/array.ts:104-111 | a ref is a key exactly when some source item has it, and it maps to the last such item (later sources overwrite earlier ones) |
| `SortAsAnother.PushedFollowsReference` | src/array.ts:113-122 | the pushed items are the map's items for the matched reference items, in reference order; a reference item contributes exactly when its key is present and its item is truthy; at most one item per reference item |
| `SortAsAnother.SortedAsAnother` | src/array.ts:100-125 | the result of `sortArrayAsAnother` is no longer than `referenceArr`, and each of its items is a truthy item of `sourceArr` |
| `SortAsAnother.SortArrayAsAnother` | src/array.ts:89-125 | building the map and then walking the reference array returns exactly `SortedAsAnother` of the inputs; the inputs are values and stay unchanged |
| `SortAsAnother.SortedFollowsReference` | src/array.ts:100-122 | the result is no longer than `referenceArr` and follows its order; its i-th item is the last source item whose ref equals the ref of the i-th matched reference item; a reference item is dropped exactly when no source item has its ref or that item is falsy |
| `SortAsAnother.SortedFromSource` | src/array.ts:104-122 | every result item is a truthy source item whose ref some reference item has; source items never referenced do not appear |
| `SortAsAnother.RepeatedReferenceRepeats` | src/array.ts:113-122 | reference items with equal refs are matched all or none, and every matched one gives the same source item, so a repeated matched ref yields that item once per occurrence |
| `SortAsAnother.NoConfigFiltersReference` | src/array.ts:100-122 | without a config both refs are the items themselves, and the result is the reference items that occur in the source and are truthy, in reference order |
| `SortAsAnotherExamples.StringsFollowReference` | src/array.ts:89-125 | `['x','y','z']` ordered as `['z','x']` gives `['z','x']` |
| `SortAsAnotherExamples.UnmatchedReferenceDropped` | src/array.ts:100-122 | `[{id:1},{id:2}]` ordered as `[{ref:2},{ref:9}]` with both ref functions gives `[{id:2}]` |
| `SortAsAnotherExamples.LaterSourceWins` | src/array.ts:104-111 | two source items with one ref: the later one is returned |
| `SortAsAnotherExamples.SourceItemRepeated` | src/array.ts:113-122 | `['x']` ordered as `['x','x']` gives `['x','x']` |
| `SortAsAnotherExamples.FalsyMatchDropped` | src/array.ts:118-121 | `[0, 1]` ordered as `[0, 1]` gives `[1]`: the matched `0` is falsy |

## Left out

- JavaScript equality for `Set` and `Map` keys (SameValueZero, `NaN`, object identity) is not modelled. Keys are values of an abstract type with equality.
- `toArray` decides "is an array" with `Array.isArray` at run time. In the model the `Arrayable` constructor decides. So a single value that is itself an array, which the source would return as it is, is not distinguished.
- `getItemRef`: a field list that contains a non-string entry (a numeric or symbol key) fails the `every(... typeof item === 'string')` test, and the item itself becomes the ref. The model's field names are strings only, so this fallback and the unreachable `typeof key !== 'string'` skip are not modelled.
- `isFunction` (src/guard.ts) is the `Callback` and `Some` constructor tags of the strategy and config datatypes. It is not a separate function.
- `getItemRef` evaluates `item[key]`, which throws a `TypeError` when an item is `null` or `undefined` (for instance `deduplicatArray([null], 'a')`). `ItemView.get` is total, so this error path is not modelled. The `keyof T` type of the field names rules such items out for typed callers.
- Callbacks are pure, total Dafny functions. Side effects, exceptions and non-determinism in a callback are not modelled.
- `config || {}`: an absent config is written `Config(None, None)`. A config that is present but falsy is not a separate case.
- The identity of returned arrays is not modelled. `toArray` returning the very same array object, and `sortArrayAsAnother` returning a fresh one, are both plain sequence values.
- src/types.ts is not part of this model. It holds compile-time type aliases only and has no run-time behaviour.
