/** Worked inputs for `sortArrayAsAnother`. */
module SortAsAnotherExamples {
  import opened SortAsAnother

  /** A string is truthy when it is not empty. */
  function NonEmpty(s: string): bool { s != "" }

  function Same(s: string): string { s }

  /** Without a config the items are their own refs; an unreferenced source item is dropped. */
  lemma StringsFollowReference()
    ensures SortedAsAnother(["x", "y", "z"], ["z", "x"], Config(None, None), Same, Same, NonEmpty)
         == ["z", "x"]
  {
    NoConfigFiltersReference(["x", "y", "z"], ["z", "x"], Same, NonEmpty);
    var ref := ["z", "x"];
    assert ref[..1] == ["z"];
    assert "z" in ["x", "y", "z"] && "x" in ["x", "y", "z"];
  }

  datatype Source = Source(id: int, name: string)
  datatype Reference = Reference(ref: int)

  function SourceId(s: Source): int { s.id }
  function ReferenceRef(r: Reference): int { r.ref }

  /**
    * Stand-ins for a record used as its own Map key. They are never consulted
    * below, where both ref functions are configured.
    */
  function UnusedSourceKey(s: Source): int { 0 }
  function UnusedReferenceKey(r: Reference): int { 0 }

  /** Records are objects, and objects are truthy. */
  function Always(s: Source): bool { true }

  function ById(): Config<Source, Reference, int>
  {
    Config(Some(SourceId), Some(ReferenceRef))
  }

  /** With both ref functions, an unmatched reference (`9`) is dropped. */
  lemma UnmatchedReferenceDropped()
    ensures SortedAsAnother([Source(1, "a"), Source(2, "b")], [Reference(2), Reference(9)],
                            ById(), UnusedSourceKey, UnusedReferenceKey, Always)
         == [Source(2, "b")]
  {
    var src := [Source(1, "a"), Source(2, "b")];
    var ref := [Reference(2), Reference(9)];
    assert src[..1] == [Source(1, "a")];
    assert ref[..1] == [Reference(2)];
    var tempMap := TempMap(src, SourceId);
    assert tempMap == map[1 := Source(1, "a"), 2 := Source(2, "b")];
    assert RefFn(ById().getRefFromSource, UnusedSourceKey) == SourceId;
    assert RefFn(ById().getRefFromReference, UnusedReferenceKey) == ReferenceRef;
    assert Pushed(tempMap, ref[..1], ReferenceRef, Always) == [Source(2, "b")];
    assert 9 !in tempMap;
  }

  /** Two source items with one ref: the later one wins. */
  lemma LaterSourceWins()
    ensures SortedAsAnother([Source(1, "first"), Source(1, "second")], [Reference(1)],
                            ById(), UnusedSourceKey, UnusedReferenceKey, Always)
         == [Source(1, "second")]
  {
    var src := [Source(1, "first"), Source(1, "second")];
    assert src[..1] == [Source(1, "first")];
    assert TempMap(src, SourceId) == map[1 := Source(1, "second")];
    assert RefFn(ById().getRefFromSource, UnusedSourceKey) == SourceId;
    assert RefFn(ById().getRefFromReference, UnusedReferenceKey) == ReferenceRef;
  }

  /** The same source item appears once per reference item that matches it. */
  lemma SourceItemRepeated()
    ensures SortedAsAnother(["x"], ["x", "x"], Config(None, None), Same, Same, NonEmpty) == ["x", "x"]
  {
    NoConfigFiltersReference(["x"], ["x", "x"], Same, NonEmpty);
    var ref := ["x", "x"];
    assert ref[..1] == ["x"];
  }

  function Number(n: int): int { n }

  /** `0` is falsy in JavaScript. */
  function NonZero(n: int): bool { n != 0 }

  /** A matched but falsy source item (`0`) is dropped. */
  lemma FalsyMatchDropped()
    ensures SortedAsAnother([0, 1], [0, 1], Config(None, None), Number, Number, NonZero) == [1]
  {
    NoConfigFiltersReference([0, 1], [0, 1], Number, NonZero);
    var ref := [0, 1];
    assert ref[..1] == [0];
  }
}
