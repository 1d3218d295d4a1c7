/**
  * Model of `deduplicatArray` (src/array.ts) and its inner helpers
  * `getItemRef` and `refInRefSet`.
  *
  * JavaScript values are modelled by a key type `K` with equality (the
  * elements of the `Set` named `refSet`). Whether a ref is an array, the only
  * test the source makes on it (`Array.isArray`), is the tag of `Ref`.
  */
module Deduplicate {
  import opened Normalize

  type FieldName = string

  /** A ref as `deduplicatArray` sees it: one Set key, or an array of Set keys. */
  datatype Ref<K> = Scalar(key: K) | Composite(keys: seq<K>)

  /** The `itemRef` argument of `deduplicatArray`. */
  datatype ItemRef<!T, K> =
    | NoRef                            // undefined: the ref is the item itself
    | Field(name: FieldName)            // one field name
    | FieldList(names: seq<FieldName>)  // an array of field names
    | Callback(f: T -> Ref<K>)          // a function computing the ref

  /**
    * How items look to the source: `itself(item)` is the item used as a ref
    * (a `Composite` when the item is itself an array), `get(item, key)` is
    * `item[key]` (some key standing for `undefined` when the field is missing).
    */
  datatype ItemView<!T, K> = ItemView(itself: T -> Ref<K>, get: (T, FieldName) -> K)

  /** The Set keys a ref stands for. */
  function Components<K(==)>(refs: Ref<K>): set<K>
  {
    match refs
    case Scalar(k) => {k}
    case Composite(ks) => set k | k in ks
  }

  /**
    * `refInRefSet`: an array ref is in the set when `every` component is
    * (vacuously so for the empty array), a single ref when it is a member.
    */
  function RefInRefSet<K(==)>(refs: Ref<K>, refSet: set<K>): (r: bool)
    ensures r <==> Components(refs) <= refSet
  {
    match refs
    case Composite(ks) => forall i | 0 <= i < |ks| :: ks[i] in refSet
    case Scalar(k) => k in refSet
  }

  /** The values `item[key]` for the keys in order, as `refKeys.forEach` pushes them. */
  function FieldValues<T, K(==)>(get: (T, FieldName) -> K, item: T, keys: seq<FieldName>): (refs: seq<K>)
    ensures |refs| == |keys|
    ensures forall i | 0 <= i < |keys| :: refs[i] == get(item, keys[i])
    decreases |keys|
  {
    if keys == [] then []
    else FieldValues(get, item, keys[..|keys| - 1]) + [get(item, keys[|keys| - 1])]
  }

  /** The field names of a `Field`/`FieldList` strategy, normalised by `toArray`. */
  function RefKeys<T, K(==)>(itemRef: ItemRef<T, K>): (keys: seq<FieldName>)
    requires itemRef.Field? || itemRef.FieldList?
    ensures itemRef.Field? ==> keys == [itemRef.name]
    ensures itemRef.FieldList? ==> keys == itemRef.names
  {
    if itemRef.Field? then ToArray(Single(itemRef.name)) else ToArray(Many(itemRef.names))
  }

  /** What `getItemRef` returns for one item. */
  function ItemRefOf<T, K(==)>(itemRef: ItemRef<T, K>, view: ItemView<T, K>, item: T): (r: Ref<K>)
    ensures itemRef.Callback? ==> r == itemRef.f(item)
    ensures itemRef.NoRef? ==> r == view.itself(item)
    ensures itemRef.Field? ==> r == Composite([view.get(item, itemRef.name)])
    ensures itemRef.FieldList? ==>
      r.Composite? && |r.keys| == |itemRef.names| &&
      forall i | 0 <= i < |r.keys| :: r.keys[i] == view.get(item, itemRef.names[i])
  {
    match itemRef
    case Callback(f) => f(item)
    case Field(name) =>
      var refs := FieldValues(view.get, item, RefKeys(itemRef));
      assert refs == [view.get(item, name)];
      Composite(refs)
    case FieldList(_) => Composite(FieldValues(view.get, item, RefKeys(itemRef)))
    case NoRef => view.itself(item)
  }

  /** `getItemRef`: the callback's result, the array of field values, or the item itself. */
  method GetItemRef<T, K(==)>(itemRef: ItemRef<T, K>, view: ItemView<T, K>, item: T) returns (r: Ref<K>)
    ensures r == ItemRefOf(itemRef, view, item)
  {
    if itemRef.Callback? {
      return itemRef.f(item);
    }
    if itemRef.Field? || itemRef.FieldList? {
      var refKeys := RefKeys(itemRef);
      var refs: seq<K> := [];
      for j := 0 to |refKeys|
        invariant refs == FieldValues(view.get, item, refKeys[..j])
      {
        refs := refs + [view.get(item, refKeys[j])];
        assert refKeys[..j + 1][..j] == refKeys[..j];
      }
      assert refKeys[..|refKeys|] == refKeys;
      return Composite(refs);
    }
    return view.itself(item);
  }

  /** The state of the walk: the `deduplicated` array and the `refSet`. */
  datatype Walk<T, K(==)> = Walk(kept: seq<T>, seen: set<K>)

  /**
    * The walk over `items` in order: an item whose ref is already in the set
    * is skipped; otherwise it is kept and every component of its ref is added.
    */
  function Scan<T, K(==)>(items: seq<T>, refOf: T -> Ref<K>): (w: Walk<T, K>)
    ensures |w.kept| <= |items|
    decreases |items|
  {
    if items == [] then Walk([], {})
    else
      var w := Scan(items[..|items| - 1], refOf);
      var item := items[|items| - 1];
      if RefInRefSet(refOf(item), w.seen) then w
      else Walk(w.kept + [item], w.seen + Components(refOf(item)))
  }

  /** One more step of the walk. */
  lemma ScanAppend<T, K>(items: seq<T>, item: T, refOf: T -> Ref<K>)
    ensures Scan(items + [item], refOf) ==
      var w := Scan(items, refOf);
      if RefInRefSet(refOf(item), w.seen) then w
      else Walk(w.kept + [item], w.seen + Components(refOf(item)))
  {
    assert (items + [item])[..|items|] == items;
  }

  /** An item with a component not yet in the set is kept, and all its components are added. */
  lemma KeepStep<T, K>(items: seq<T>, item: T, refOf: T -> Ref<K>, k: K)
    requires k in Components(refOf(item)) && k !in Scan(items, refOf).seen
    ensures Scan(items + [item], refOf) ==
      Walk(Scan(items, refOf).kept + [item], Scan(items, refOf).seen + Components(refOf(item)))
  {
    ScanAppend(items, item, refOf);
  }

  /** An item all of whose components are in the set is dropped and changes nothing. */
  lemma SkipStep<T, K>(items: seq<T>, item: T, refOf: T -> Ref<K>)
    requires Components(refOf(item)) <= Scan(items, refOf).seen
    ensures Scan(items + [item], refOf) == Scan(items, refOf)
  {
    ScanAppend(items, item, refOf);
  }

  /** The ref function `getItemRef` computes for a strategy. */
  function RefOf<T, K(==)>(itemRef: ItemRef<T, K>, view: ItemView<T, K>): T -> Ref<K>
  {
    item => ItemRefOf(itemRef, view, item)
  }

  /** What `deduplicatArray(items, itemRef)` returns. */
  function Deduplicated<T, K(==)>(items: seq<T>, itemRef: ItemRef<T, K>, view: ItemView<T, K>): seq<T>
  {
    Scan(items, RefOf(itemRef, view)).kept
  }

  /** `refs.forEach(ref => refSet.add(ref))`: the set grows by every component of an array ref. */
  method AddEach<K(==)>(refSet: set<K>, keys: seq<K>) returns (grown: set<K>)
    ensures grown == refSet + Components(Composite(keys))
  {
    grown := refSet;
    for j := 0 to |keys|
      invariant grown == refSet + set k | k in keys[..j]
    {
      grown := grown + {keys[j]};
      assert keys[..j + 1] == keys[..j] + [keys[j]];
    }
    assert keys[..|keys|] == keys;
  }

  /**
    * `deduplicatArray`: one pass over `items`, pushing an item only when its
    * ref is not yet in `refSet`, then adding the ref's components.
    */
  method DeduplicatArray<T, K(==)>(items: seq<T>, itemRef: ItemRef<T, K>, view: ItemView<T, K>)
    returns (deduplicated: seq<T>)
    ensures deduplicated == Deduplicated(items, itemRef, view)
  {
    ghost var refOf := RefOf(itemRef, view);
    var refSet: set<K> := {};
    deduplicated := [];
    for i := 0 to |items|
      invariant Scan(items[..i], refOf) == Walk(deduplicated, refSet)
    {
      var item := items[i];
      var refs := GetItemRef(itemRef, view, item);
      assert items[..i + 1][..i] == items[..i];
      assert refOf(item) == refs;
      if refs.Composite? {
        if !RefInRefSet(refs, refSet) {
          deduplicated := deduplicated + [item];
          refSet := AddEach(refSet, refs.keys);
        }
      } else {
        if !RefInRefSet(refs, refSet) {
          deduplicated := deduplicated + [item];
          refSet := refSet + {refs.key};
        }
      }
    }
    assert items[..|items|] == items;
  }

  // ---------------------------------------------------------------------------
  // Properties of the walk, for any ref function
  // ---------------------------------------------------------------------------

  /** The union of the ref components of `kept`. */
  function KeptComponents<T, K(==)>(kept: seq<T>, refOf: T -> Ref<K>): (c: set<K>)
    ensures forall i | 0 <= i < |kept| :: Components(refOf(kept[i])) <= c
    ensures forall k | k in c :: exists i :: 0 <= i < |kept| && k in Components(refOf(kept[i]))
    decreases |kept|
  {
    if kept == [] then {}
    else
      var c := KeptComponents(kept[..|kept| - 1], refOf);
      assert forall i | 0 <= i < |kept| - 1 :: kept[..|kept| - 1][i] == kept[i];
      c + Components(refOf(kept[|kept| - 1]))
  }

  lemma KeptComponentsAppend<T, K>(kept: seq<T>, item: T, refOf: T -> Ref<K>)
    ensures KeptComponents(kept + [item], refOf) == KeptComponents(kept, refOf) + Components(refOf(item))
  {
    assert (kept + [item])[..|kept|] == kept;
  }

  /** The set the walk keeps is exactly the union of the components of the kept items. */
  lemma {:induction false} SeenIsKeptComponents<T, K>(items: seq<T>, refOf: T -> Ref<K>)
    ensures Scan(items, refOf).seen == KeptComponents(Scan(items, refOf).kept, refOf)
    decreases |items|
  {
    if items != [] {
      var prefix := items[..|items| - 1];
      SeenIsKeptComponents(prefix, refOf);
      KeptComponentsAppend(Scan(prefix, refOf).kept, items[|items| - 1], refOf);
    }
  }

  /** Whether the walk keeps the item at position `j`. */
  ghost predicate KeptAt<T, K>(items: seq<T>, refOf: T -> Ref<K>, j: nat)
    requires j < |items|
  {
    !RefInRefSet(refOf(items[j]), Scan(items[..j], refOf).seen)
  }

  /**
    * The drop rule without the set: an item is dropped exactly when every
    * component of its ref belongs to the refs of the items kept before it.
    */
  lemma DropRule<T, K>(items: seq<T>, refOf: T -> Ref<K>, j: nat)
    requires j < |items|
    ensures KeptAt(items, refOf, j) <==>
      !(Components(refOf(items[j])) <= KeptComponents(Scan(items[..j], refOf).kept, refOf))
  {
    SeenIsKeptComponents(items[..j], refOf);
  }

  /** The positions of the kept items, in increasing order. */
  ghost function KeptIndices<T, K>(items: seq<T>, refOf: T -> Ref<K>): seq<nat>
    decreases |items|
  {
    if items == [] then []
    else
      var prefix := KeptIndices(items[..|items| - 1], refOf);
      if KeptAt(items, refOf, |items| - 1) then prefix + [|items| - 1] else prefix
  }

  /** `sub` is `s` restricted to the strictly increasing positions `idx`. */
  ghost predicate SubsequenceAt<T>(sub: seq<T>, s: seq<T>, idx: seq<nat>)
  {
    && |idx| == |sub|
    && (forall i | 0 <= i < |idx| :: idx[i] < |s| && sub[i] == s[idx[i]])
    && (forall i, j | 0 <= i < j < |idx| :: idx[i] < idx[j])
  }

  /**
    * The output is a subsequence of the input: the kept items are the input
    * items at `KeptIndices`, in order, and a position is among them exactly
    * when the walk keeps that item.
    */
  lemma {:induction false} KeptIsSubsequence<T, K>(items: seq<T>, refOf: T -> Ref<K>)
    ensures SubsequenceAt(Scan(items, refOf).kept, items, KeptIndices(items, refOf))
    ensures forall j | 0 <= j < |items| :: j in KeptIndices(items, refOf) <==> KeptAt(items, refOf, j)
    ensures |Scan(items, refOf).kept| <= |items|
    decreases |items|
  {
    if items != [] {
      var n := |items| - 1;
      var prefix := items[..n];
      KeptIsSubsequence(prefix, refOf);
      assert items[..n] == prefix;
      forall j | 0 <= j < n
        ensures KeptAt(items, refOf, j) == KeptAt(prefix, refOf, j)
      {
        assert items[..j] == prefix[..j];
      }
    }
  }

  /** Empty input gives empty output. */
  lemma EmptyInput<T, K>(refOf: T -> Ref<K>)
    ensures Scan([], refOf).kept == []
  {
  }

  /** Every item of the input, kept or not, has all its ref components in the final set. */
  lemma {:induction false} EveryItemCovered<T, K>(items: seq<T>, refOf: T -> Ref<K>)
    ensures forall j | 0 <= j < |items| :: Components(refOf(items[j])) <= Scan(items, refOf).seen
    decreases |items|
  {
    if items != [] {
      var prefix := items[..|items| - 1];
      EveryItemCovered(prefix, refOf);
      assert forall j | 0 <= j < |items| - 1 :: items[j] == prefix[j];
    }
  }

  /**
    * Every ref component in the input is a component of some kept item's ref:
    * nothing the input refers to is lost.
    */
  lemma KeptCoverInput<T, K>(items: seq<T>, refOf: T -> Ref<K>)
    ensures forall j | 0 <= j < |items| ::
      Components(refOf(items[j])) <= KeptComponents(Scan(items, refOf).kept, refOf)
  {
    EveryItemCovered(items, refOf);
    SeenIsKeptComponents(items, refOf);
  }

  /** Each kept item brings a component not covered by the items kept before it. */
  lemma {:induction false} KeptBringsNew<T, K>(items: seq<T>, refOf: T -> Ref<K>)
    ensures var kept := Scan(items, refOf).kept;
      forall j | 0 <= j < |kept| :: !(Components(refOf(kept[j])) <= KeptComponents(kept[..j], refOf))
    decreases |items|
  {
    if items != [] {
      var prefix := items[..|items| - 1];
      var w := Scan(prefix, refOf);
      KeptBringsNew(prefix, refOf);
      SeenIsKeptComponents(prefix, refOf);
      var kept := Scan(items, refOf).kept;
      if kept != w.kept {
        assert kept == w.kept + [items[|items| - 1]];
        forall j | 0 <= j < |kept|
          ensures !(Components(refOf(kept[j])) <= KeptComponents(kept[..j], refOf))
        {
          if j < |w.kept| {
            assert kept[..j] == w.kept[..j];
          } else {
            assert kept[..j] == w.kept;
          }
        }
      }
    }
  }

  /** No two kept items have equal refs. */
  lemma KeptRefsDistinct<T, K>(items: seq<T>, refOf: T -> Ref<K>)
    ensures var kept := Scan(items, refOf).kept;
      forall i, j | 0 <= i < j < |kept| :: refOf(kept[i]) != refOf(kept[j])
  {
    var kept := Scan(items, refOf).kept;
    KeptBringsNew(items, refOf);
    forall i, j | 0 <= i < j < |kept|
      ensures refOf(kept[i]) != refOf(kept[j])
    {
      assert kept[..j][i] == kept[i];
      assert Components(refOf(kept[i])) <= KeptComponents(kept[..j], refOf);
    }
  }

  /** The walk applied to its own output keeps everything and ends with the same set. */
  lemma {:induction false} ScanFixpoint<T, K>(items: seq<T>, refOf: T -> Ref<K>)
    ensures Scan(Scan(items, refOf).kept, refOf) == Scan(items, refOf)
    decreases |items|
  {
    if items != [] {
      var prefix := items[..|items| - 1];
      var w := Scan(prefix, refOf);
      ScanFixpoint(prefix, refOf);
      var item := items[|items| - 1];
      if !RefInRefSet(refOf(item), w.seen) {
        assert (w.kept + [item])[..|w.kept|] == w.kept;
      }
    }
  }

  /** `deduplicatArray` is idempotent for a fixed `itemRef`. */
  lemma DeduplicatedIdempotent<T, K>(items: seq<T>, itemRef: ItemRef<T, K>, view: ItemView<T, K>)
    ensures Deduplicated(Deduplicated(items, itemRef, view), itemRef, view) == Deduplicated(items, itemRef, view)
  {
    ScanFixpoint(items, RefOf(itemRef, view));
  }

  // ---------------------------------------------------------------------------
  // Scalar refs: first occurrences
  // ---------------------------------------------------------------------------

  ghost predicate AllScalar<T, K>(items: seq<T>, refOf: T -> Ref<K>)
  {
    forall i | 0 <= i < |items| :: refOf(items[i]).Scalar?
  }

  /** With scalar refs only, the set holds exactly the refs met so far. */
  lemma {:induction false} ScalarSeen<T, K>(items: seq<T>, refOf: T -> Ref<K>)
    requires AllScalar(items, refOf)
    ensures forall i | 0 <= i < |items| :: refOf(items[i]).key in Scan(items, refOf).seen
    ensures forall k | k in Scan(items, refOf).seen ::
      exists i :: 0 <= i < |items| && refOf(items[i]) == Scalar(k)
    decreases |items|
  {
    if items != [] {
      var prefix := items[..|items| - 1];
      assert forall i | 0 <= i < |prefix| :: prefix[i] == items[i];
      ScalarSeen(prefix, refOf);
    }
  }

  /**
    * With scalar refs only, an item is kept exactly when it is the first
    * occurrence of its ref.
    */
  lemma ScalarKeepsFirstOccurrence<T, K>(items: seq<T>, refOf: T -> Ref<K>, j: nat)
    requires AllScalar(items, refOf)
    requires j < |items|
    ensures KeptAt(items, refOf, j) <==> forall i | 0 <= i < j :: refOf(items[i]) != refOf(items[j])
  {
    var prefix := items[..j];
    assert forall i | 0 <= i < j :: prefix[i] == items[i];
    ScalarSeen(prefix, refOf);
    var r := refOf(items[j]);
    assert r == Scalar(r.key);
    assert KeptAt(items, refOf, j) <==> r.key !in Scan(prefix, refOf).seen;
    if r.key in Scan(prefix, refOf).seen {
      var i :| 0 <= i < |prefix| && refOf(prefix[i]) == Scalar(r.key);
      assert refOf(items[i]) == r;
    } else {
      forall i | 0 <= i < j
        ensures refOf(items[i]) != r
      {
        assert refOf(prefix[i]).key in Scan(prefix, refOf).seen;
      }
    }
  }

  /** With scalar refs only, every ref in the input has exactly one kept item. */
  lemma ScalarExactlyOneKept<T, K>(items: seq<T>, refOf: T -> Ref<K>, j: nat)
    requires AllScalar(items, refOf)
    requires j < |items|
    ensures var kept := Scan(items, refOf).kept;
      exists i :: 0 <= i < |kept| && refOf(kept[i]) == refOf(items[j])
    ensures var kept := Scan(items, refOf).kept;
      forall i, i' | 0 <= i < |kept| && 0 <= i' < |kept| ::
        refOf(kept[i]) == refOf(items[j]) && refOf(kept[i']) == refOf(items[j]) ==> i == i'
  {
    var kept := Scan(items, refOf).kept;
    KeptCoverInput(items, refOf);
    KeptRefsDistinct(items, refOf);
    var k := refOf(items[j]).key;
    assert k in Components(refOf(items[j]));
    var i :| 0 <= i < |kept| && k in Components(refOf(kept[i]));
    KeptIsSubsequence(items, refOf);
    var idx := KeptIndices(items, refOf);
    assert kept[i] == items[idx[i]];
    assert refOf(kept[i]) == refOf(items[j]);
  }

  // ---------------------------------------------------------------------------
  // Empty composite refs
  // ---------------------------------------------------------------------------

  /** When no item's ref has a component, `every` is vacuously true and nothing is kept. */
  lemma {:induction false} NoComponentsKeepsNothing<T, K>(items: seq<T>, refOf: T -> Ref<K>)
    requires forall i | 0 <= i < |items| :: refOf(items[i]) == Composite([])
    ensures Scan(items, refOf).kept == []
    decreases |items|
  {
    if items != [] {
      var prefix := items[..|items| - 1];
      assert forall i | 0 <= i < |prefix| :: prefix[i] == items[i];
      NoComponentsKeepsNothing(prefix, refOf);
    }
  }

  /** An empty field list drops every item. */
  lemma EmptyFieldListDropsAll<T, K>(items: seq<T>, view: ItemView<T, K>)
    ensures Deduplicated(items, FieldList([]), view) == []
  {
    NoComponentsKeepsNothing(items, RefOf(FieldList([]), view));
  }

  /** A callback returning `[]` for every item drops every item. */
  lemma EmptyCallbackDropsAll<T, K>(items: seq<T>, f: T -> Ref<K>, view: ItemView<T, K>)
    requires forall i | 0 <= i < |items| :: f(items[i]) == Composite([])
    ensures Deduplicated(items, Callback(f), view) == []
  {
    NoComponentsKeepsNothing(items, RefOf(Callback(f), view));
  }
}
