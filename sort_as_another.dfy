/**
  * Model of `sortArrayAsAnother` (src/array.ts): reorder `sourceArr` to
  * follow `referenceArr`, matching items by ref.
  *
  * Map keys are modelled by a type `K` with equality. JavaScript's truthiness
  * test on the looked-up source item is the parameter `truthy`; a key missing
  * from the map gives `undefined`, which is falsy.
  */
module SortAsAnother {

  datatype Option<T> = None | Some(value: T)

  /**
    * The `config` argument. A missing `config` reads as `Config(None, None)`
    * (`config || {}`); a missing function means the ref is the item itself.
    */
  datatype Config<!S, !R, K> = Config(getRefFromSource: Option<S -> K>, getRefFromReference: Option<R -> K>)

  /** The ref function in use: the configured one, or the item itself as a key. */
  function RefFn<X, K>(getRef: Option<X -> K>, itself: X -> K): (f: X -> K)
    ensures getRef.Some? ==> f == getRef.value
    ensures getRef.None? ==> f == itself
  {
    if getRef.Some? then getRef.value else itself
  }

  /** The position of the last item of `sourceArr` whose ref is `k`, or -1 when there is none. */
  ghost function LastIndex<S, K>(sourceArr: seq<S>, sourceRef: S -> K, k: K): (i: int)
    ensures -1 <= i < |sourceArr|
    ensures i >= 0 ==> sourceRef(sourceArr[i]) == k
    ensures forall j | i < j < |sourceArr| :: sourceRef(sourceArr[j]) != k
    decreases |sourceArr|
  {
    if sourceArr == [] then -1
    else if sourceRef(sourceArr[|sourceArr| - 1]) == k then |sourceArr| - 1
    else LastIndex(sourceArr[..|sourceArr| - 1], sourceRef, k)
  }

  /** The `tempMap` that `reduce` builds: `map.set(ref, source)` for each source item in order. */
  function TempMap<S, K(==)>(sourceArr: seq<S>, sourceRef: S -> K): (m: map<K, S>)
    ensures forall i | 0 <= i < |sourceArr| :: sourceRef(sourceArr[i]) in m
    ensures forall k | k in m :: exists i :: 0 <= i < |sourceArr| && sourceRef(sourceArr[i]) == k
    ensures forall k | k in m :: m[k] in sourceArr && sourceRef(m[k]) == k
    decreases |sourceArr|
  {
    if sourceArr == [] then map[]
    else
      var prefix := sourceArr[..|sourceArr| - 1];
      var last := sourceArr[|sourceArr| - 1];
      assert forall i | 0 <= i < |prefix| :: prefix[i] == sourceArr[i];
      TempMap(prefix, sourceRef)[sourceRef(last) := last]
  }

  /** Last write wins: a ref maps to the last source item with that ref. */
  lemma {:induction false} TempMapLastWins<S, K>(sourceArr: seq<S>, sourceRef: S -> K, k: K)
    ensures k in TempMap(sourceArr, sourceRef) <==> LastIndex(sourceArr, sourceRef, k) >= 0
    ensures k in TempMap(sourceArr, sourceRef) ==>
      TempMap(sourceArr, sourceRef)[k] == sourceArr[LastIndex(sourceArr, sourceRef, k)]
    decreases |sourceArr|
  {
    if sourceArr != [] {
      TempMapLastWins(sourceArr[..|sourceArr| - 1], sourceRef, k);
    }
  }

  /** A reference item is matched when its ref is in the map and the mapped item is truthy. */
  ghost predicate Matches<S, R, K>(tempMap: map<K, S>, referenceRef: R -> K, truthy: S -> bool, reference: R)
  {
    referenceRef(reference) in tempMap && truthy(tempMap[referenceRef(reference)])
  }

  /** What the `forEach` over `referenceArr` pushes into `result`. */
  function Pushed<S, R, K(==)>(tempMap: map<K, S>, referenceArr: seq<R>, referenceRef: R -> K, truthy: S -> bool)
    : (result: seq<S>)
    ensures |result| <= |referenceArr|
    ensures forall i | 0 <= i < |result| ::
      truthy(result[i]) && exists k :: k in tempMap && tempMap[k] == result[i]
    decreases |referenceArr|
  {
    if referenceArr == [] then []
    else
      var result := Pushed(tempMap, referenceArr[..|referenceArr| - 1], referenceRef, truthy);
      var ref := referenceRef(referenceArr[|referenceArr| - 1]);
      if ref in tempMap && truthy(tempMap[ref]) then result + [tempMap[ref]] else result
  }

  /** The positions of the matched reference items, in increasing order. */
  ghost function MatchedIndices<S, R, K>(tempMap: map<K, S>, referenceArr: seq<R>, referenceRef: R -> K, truthy: S -> bool): seq<nat>
    decreases |referenceArr|
  {
    if referenceArr == [] then []
    else
      var prefix := MatchedIndices(tempMap, referenceArr[..|referenceArr| - 1], referenceRef, truthy);
      if Matches(tempMap, referenceRef, truthy, referenceArr[|referenceArr| - 1])
      then prefix + [|referenceArr| - 1] else prefix
  }

  /**
    * The pushed items follow the reference order: the i-th one is the map's
    * item for the i-th matched reference item, and exactly the matched
    * reference positions contribute.
    */
  lemma {:induction false} PushedFollowsReference<S, R, K>(
    tempMap: map<K, S>, referenceArr: seq<R>, referenceRef: R -> K, truthy: S -> bool)
    ensures var result := Pushed(tempMap, referenceArr, referenceRef, truthy);
      var idx := MatchedIndices(tempMap, referenceArr, referenceRef, truthy);
      && |idx| == |result| <= |referenceArr|
      && (forall i | 0 <= i < |idx| :: idx[i] < |referenceArr|)
      && (forall i, i' | 0 <= i < i' < |idx| :: idx[i] < idx[i'])
      && (forall j | 0 <= j < |referenceArr| :: j in idx <==> Matches(tempMap, referenceRef, truthy, referenceArr[j]))
      && (forall i | 0 <= i < |idx| ::
            referenceRef(referenceArr[idx[i]]) in tempMap &&
            result[i] == tempMap[referenceRef(referenceArr[idx[i]])])
    decreases |referenceArr|
  {
    if referenceArr != [] {
      var prefix := referenceArr[..|referenceArr| - 1];
      PushedFollowsReference(tempMap, prefix, referenceRef, truthy);
      assert forall j | 0 <= j < |prefix| :: prefix[j] == referenceArr[j];
    }
  }

  /** What `sortArrayAsAnother(sourceArr, referenceArr, config)` returns. */
  function SortedAsAnother<S, R, K(==)>(
    sourceArr: seq<S>, referenceArr: seq<R>, config: Config<S, R, K>,
    sourceItself: S -> K, referenceItself: R -> K, truthy: S -> bool): (result: seq<S>)
    ensures |result| <= |referenceArr|
    ensures forall i | 0 <= i < |result| :: truthy(result[i]) && result[i] in sourceArr
  {
    var tempMap := TempMap(sourceArr, RefFn(config.getRefFromSource, sourceItself));
    Pushed(tempMap, referenceArr, RefFn(config.getRefFromReference, referenceItself), truthy)
  }

  /**
    * `sortArrayAsAnother`: build `tempMap` from `sourceArr` (later items
    * overwrite earlier ones), then walk `referenceArr` and push each
    * looked-up item that is truthy. The inputs are values and are not changed.
    */
  method SortArrayAsAnother<S, R, K(==)>(
    sourceArr: seq<S>, referenceArr: seq<R>, config: Config<S, R, K>,
    sourceItself: S -> K, referenceItself: R -> K, truthy: S -> bool)
    returns (result: seq<S>)
    ensures result == SortedAsAnother(sourceArr, referenceArr, config, sourceItself, referenceItself, truthy)
  {
    var sourceRef := RefFn(config.getRefFromSource, sourceItself);
    var referenceRef := RefFn(config.getRefFromReference, referenceItself);
    result := [];

    var tempMap: map<K, S> := map[];
    for i := 0 to |sourceArr|
      invariant tempMap == TempMap(sourceArr[..i], sourceRef)
    {
      var source := sourceArr[i];
      var ref := sourceItself(source);
      if config.getRefFromSource.Some? {
        ref := config.getRefFromSource.value(source);
      }
      tempMap := tempMap[ref := source];
      assert sourceArr[..i + 1][..i] == sourceArr[..i];
    }
    assert sourceArr[..|sourceArr|] == sourceArr;

    for i := 0 to |referenceArr|
      invariant result == Pushed(tempMap, referenceArr[..i], referenceRef, truthy)
    {
      var reference := referenceArr[i];
      var ref := referenceItself(reference);
      if config.getRefFromReference.Some? {
        ref := config.getRefFromReference.value(reference);
      }
      if ref in tempMap && truthy(tempMap[ref]) {
        result := result + [tempMap[ref]];
      }
      assert referenceArr[..i + 1][..i] == referenceArr[..i];
    }
    assert referenceArr[..|referenceArr|] == referenceArr;
  }

  // ---------------------------------------------------------------------------
  // Properties of the result, stated against the source array itself
  // ---------------------------------------------------------------------------

  /** The reference ref `k` is matched: some source item has ref `k` and the last such item is truthy. */
  ghost predicate MatchedInSource<S, K>(sourceArr: seq<S>, sourceRef: S -> K, truthy: S -> bool, k: K)
  {
    var i := LastIndex(sourceArr, sourceRef, k);
    i >= 0 && truthy(sourceArr[i])
  }

  /**
    * The result follows the reference order; its i-th item is the last
    * source item whose ref equals the ref of the i-th matched reference item;
    * a reference item is skipped exactly when no source item has its ref or
    * the last one that does is falsy; the result is no longer than the reference.
    */
  lemma SortedFollowsReference<S, R, K>(
    sourceArr: seq<S>, referenceArr: seq<R>, config: Config<S, R, K>,
    sourceItself: S -> K, referenceItself: R -> K, truthy: S -> bool)
    ensures var sourceRef := RefFn(config.getRefFromSource, sourceItself);
      var referenceRef := RefFn(config.getRefFromReference, referenceItself);
      var result := SortedAsAnother(sourceArr, referenceArr, config, sourceItself, referenceItself, truthy);
      var idx := MatchedIndices(TempMap(sourceArr, sourceRef), referenceArr, referenceRef, truthy);
      && |idx| == |result| <= |referenceArr|
      && (forall i, i' | 0 <= i < i' < |idx| :: idx[i] < idx[i'])
      && (forall j | 0 <= j < |referenceArr| ::
            j in idx <==> MatchedInSource(sourceArr, sourceRef, truthy, referenceRef(referenceArr[j])))
      && (forall i | 0 <= i < |idx| ::
            idx[i] < |referenceArr| &&
            0 <= LastIndex(sourceArr, sourceRef, referenceRef(referenceArr[idx[i]])) &&
            result[i] == sourceArr[LastIndex(sourceArr, sourceRef, referenceRef(referenceArr[idx[i]]))])
  {
    var sourceRef := RefFn(config.getRefFromSource, sourceItself);
    var referenceRef := RefFn(config.getRefFromReference, referenceItself);
    var tempMap := TempMap(sourceArr, sourceRef);
    PushedFollowsReference(tempMap, referenceArr, referenceRef, truthy);
    forall j | 0 <= j < |referenceArr|
      ensures Matches(tempMap, referenceRef, truthy, referenceArr[j])
          <==> MatchedInSource(sourceArr, sourceRef, truthy, referenceRef(referenceArr[j]))
    {
      TempMapLastWins(sourceArr, sourceRef, referenceRef(referenceArr[j]));
    }
    var idx := MatchedIndices(tempMap, referenceArr, referenceRef, truthy);
    var result := SortedAsAnother(sourceArr, referenceArr, config, sourceItself, referenceItself, truthy);
    forall i | 0 <= i < |idx|
      ensures 0 <= LastIndex(sourceArr, sourceRef, referenceRef(referenceArr[idx[i]]))
      ensures result[i] == sourceArr[LastIndex(sourceArr, sourceRef, referenceRef(referenceArr[idx[i]]))]
    {
      TempMapLastWins(sourceArr, sourceRef, referenceRef(referenceArr[idx[i]]));
    }
  }

  /**
    * Every result item is a truthy source item whose ref some reference item
    * has: source items that are never referenced do not appear.
    */
  lemma SortedFromSource<S, R, K>(
    sourceArr: seq<S>, referenceArr: seq<R>, config: Config<S, R, K>,
    sourceItself: S -> K, referenceItself: R -> K, truthy: S -> bool)
    ensures var sourceRef := RefFn(config.getRefFromSource, sourceItself);
      var referenceRef := RefFn(config.getRefFromReference, referenceItself);
      var result := SortedAsAnother(sourceArr, referenceArr, config, sourceItself, referenceItself, truthy);
      forall i | 0 <= i < |result| ::
        truthy(result[i]) && result[i] in sourceArr &&
        exists j :: 0 <= j < |referenceArr| && sourceRef(result[i]) == referenceRef(referenceArr[j])
  {
    var sourceRef := RefFn(config.getRefFromSource, sourceItself);
    var referenceRef := RefFn(config.getRefFromReference, referenceItself);
    var tempMap := TempMap(sourceArr, sourceRef);
    var result := SortedAsAnother(sourceArr, referenceArr, config, sourceItself, referenceItself, truthy);
    SortedFollowsReference(sourceArr, referenceArr, config, sourceItself, referenceItself, truthy);
    PushedFollowsReference(tempMap, referenceArr, referenceRef, truthy);
    var idx := MatchedIndices(tempMap, referenceArr, referenceRef, truthy);
    forall i | 0 <= i < |result|
      ensures truthy(result[i]) && result[i] in sourceArr &&
        exists j :: 0 <= j < |referenceArr| && sourceRef(result[i]) == referenceRef(referenceArr[j])
    {
      var j := idx[i];
      var s := LastIndex(sourceArr, sourceRef, referenceRef(referenceArr[j]));
      assert j in idx;
      assert result[i] == sourceArr[s];
    }
  }

  /**
    * Reference items with one ref are treated alike: either every occurrence
    * is matched or none is, and every matched occurrence gives the same source
    * item, so a repeated matched ref repeats that item once per occurrence.
    */
  lemma RepeatedReferenceRepeats<S, R, K>(
    sourceArr: seq<S>, referenceArr: seq<R>, config: Config<S, R, K>,
    sourceItself: S -> K, referenceItself: R -> K, truthy: S -> bool)
    ensures var sourceRef := RefFn(config.getRefFromSource, sourceItself);
      var referenceRef := RefFn(config.getRefFromReference, referenceItself);
      var result := SortedAsAnother(sourceArr, referenceArr, config, sourceItself, referenceItself, truthy);
      var idx := MatchedIndices(TempMap(sourceArr, sourceRef), referenceArr, referenceRef, truthy);
      && |idx| == |result|
      && (forall i | 0 <= i < |idx| :: idx[i] < |referenceArr|)
      && (forall j, j' | 0 <= j < |referenceArr| && 0 <= j' < |referenceArr| &&
            referenceRef(referenceArr[j]) == referenceRef(referenceArr[j']) :: j in idx <==> j' in idx)
      && (forall i, i' | 0 <= i < |idx| && 0 <= i' < |idx| &&
            referenceRef(referenceArr[idx[i]]) == referenceRef(referenceArr[idx[i']]) :: result[i] == result[i'])
  {
    SortedFollowsReference(sourceArr, referenceArr, config, sourceItself, referenceItself, truthy);
  }

  // ---------------------------------------------------------------------------
  // No config: both refs are the items themselves
  // ---------------------------------------------------------------------------

  /** The reference items that occur in the source and are truthy, in reference order. */
  ghost function PresentAndTruthy<T>(referenceArr: seq<T>, sourceArr: seq<T>, truthy: T -> bool): seq<T>
    decreases |referenceArr|
  {
    if referenceArr == [] then []
    else
      var prefix := PresentAndTruthy(referenceArr[..|referenceArr| - 1], sourceArr, truthy);
      var last := referenceArr[|referenceArr| - 1];
      if last in sourceArr && truthy(last) then prefix + [last] else prefix
  }

  /** With no config, the result keeps the reference items found in the source, in reference order. */
  lemma {:induction false} NoConfigFiltersReference<T>(
    sourceArr: seq<T>, referenceArr: seq<T>, itself: T -> T, truthy: T -> bool)
    requires forall x :: itself(x) == x
    ensures SortedAsAnother(sourceArr, referenceArr, Config(None, None), itself, itself, truthy)
         == PresentAndTruthy(referenceArr, sourceArr, truthy)
    decreases |referenceArr|
  {
    if referenceArr != [] {
      var prefix := referenceArr[..|referenceArr| - 1];
      NoConfigFiltersReference(sourceArr, prefix, itself, truthy);
      var last := referenceArr[|referenceArr| - 1];
      TempMapLastWins(sourceArr, itself, last);
      var tempMap := TempMap(sourceArr, itself);
      if last in tempMap {
        assert last in sourceArr;
      }
      if last in sourceArr {
        var i :| 0 <= i < |sourceArr| && sourceArr[i] == last;
        assert itself(sourceArr[i]) in tempMap;
      }
    }
  }
}
