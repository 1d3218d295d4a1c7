/** Worked inputs for `deduplicatArray` over records with two numeric fields `a` and `b`. */
module DeduplicateExamples {
  import opened Deduplicate

  datatype Row = Row(a: int, b: int)

  /**
    * A Set key: `undefined` for a field the record does not have, a number,
    * or a whole record used as its own key (never equal to a number).
    */
  datatype Value = Undefined | Num(n: int) | Obj(row: Row)

  function Get(row: Row, key: FieldName): Value
  {
    if key == "a" then Num(row.a) else if key == "b" then Num(row.b) else Undefined
  }

  /** A plain record used as a ref is a single Set key. */
  function Itself(row: Row): Ref<Value>
  {
    Scalar(Obj(row))
  }

  function View(): ItemView<Row, Value>
  {
    ItemView(Itself, Get)
  }

  /** The ref of a row under the field name `"a"`. */
  lemma SingleRef(row: Row)
    ensures RefOf(Field("a"), View())(row) == Composite([Num(row.a)])
  {
  }

  /** The ref of a row under the field list `["a", "b"]`. */
  lemma PairRef(row: Row)
    ensures RefOf(FieldList(["a", "b"]), View())(row) == Composite([Num(row.a), Num(row.b)])
  {
    var keys := ItemRefOf(FieldList(["a", "b"]), View(), row).keys;
    assert keys == [Num(row.a), Num(row.b)];
  }

  /** The walk over three items whose refs are given. */
  lemma FirstAndThirdKept(r1: Row, r2: Row, r3: Row, refOf: Row -> Ref<Value>)
    requires refOf(r1) == Composite([Num(1)])
    requires refOf(r2) == Composite([Num(1)])
    requires refOf(r3) == Composite([Num(2)])
    ensures Scan([r1, r2, r3], refOf).kept == [r1, r3]
  {
    var c1 := Components(refOf(r1));
    assert Scan([r1], refOf) == Walk([r1], c1) by {
      assert Num(1) in c1;
      KeepStep([], r1, refOf, Num(1));
      assert [] + [r1] == [r1];
    }
    assert Scan([r1, r2], refOf) == Walk([r1], c1) by {
      SkipStep([r1], r2, refOf);
      assert [r1] + [r2] == [r1, r2];
    }
    assert Num(2) in Components(refOf(r3)) && Num(2) !in c1;
    KeepStep([r1, r2], r3, refOf, Num(2));
    assert [r1, r2] + [r3] == [r1, r2, r3];
  }

  /** One field name: the first record with each `a` survives. */
  lemma ByOneField(r1: Row, r2: Row, r3: Row)
    requires r1 == Row(1, 10) && r2 == Row(1, 11) && r3 == Row(2, 12)
    ensures Deduplicated([r1, r2, r3], Field("a"), View()) == [r1, r3]
  {
    SingleRef(r1);
    SingleRef(r2);
    SingleRef(r3);
    FirstAndThirdKept(r1, r2, r3, RefOf(Field("a"), View()));
  }

  /** The walk over three items whose refs each bring a new component. */
  lemma AllThreeKept(r1: Row, r2: Row, r3: Row, refOf: Row -> Ref<Value>)
    requires refOf(r1) == Composite([Num(1), Num(2)])
    requires refOf(r2) == Composite([Num(1), Num(3)])
    requires refOf(r3) == Composite([Num(4), Num(2)])
    ensures Scan([r1, r2, r3], refOf).kept == [r1, r2, r3]
  {
    var c1, c2 := Components(refOf(r1)), Components(refOf(r2));
    assert Num(1) in c1 && Num(3) in c2 && Num(3) !in c1;
    assert Num(4) in Components(refOf(r3)) && Num(4) !in c1 + c2;
    KeepStep([], r1, refOf, Num(1));
    assert [] + [r1] == [r1];
    KeepStep([r1], r2, refOf, Num(3));
    assert [r1] + [r2] == [r1, r2];
    KeepStep([r1, r2], r3, refOf, Num(4));
    assert [r1, r2] + [r3] == [r1, r2, r3];
  }

  /**
    * Two field names are tested per component, not as a pair: `b: 3` and
    * `a: 4` are new, so all three records are kept.
    */
  lemma PerComponentKeepsAll(r1: Row, r2: Row, r3: Row)
    requires r1 == Row(1, 2) && r2 == Row(1, 3) && r3 == Row(4, 2)
    ensures Deduplicated([r1, r2, r3], FieldList(["a", "b"]), View()) == [r1, r2, r3]
  {
    PairRef(r1);
    PairRef(r2);
    PairRef(r3);
    AllThreeKept(r1, r2, r3, RefOf(FieldList(["a", "b"]), View()));
  }

  /** The walk over two items whose second ref is covered by the first. */
  lemma SecondCovered(r1: Row, r2: Row, refOf: Row -> Ref<Value>)
    requires refOf(r1) == Composite([Num(1), Num(5)])
    requires refOf(r2) == Composite([Num(5), Num(1)])
    ensures Scan([r1, r2], refOf).kept == [r1]
  {
    assert Num(1) in Components(refOf(r1));
    KeepStep([], r1, refOf, Num(1));
    assert [] + [r1] == [r1];
    assert Components(refOf(r2)) <= Components(refOf(r1));
    SkipStep([r1], r2, refOf);
    assert [r1] + [r2] == [r1, r2];
  }

  /** Values of different fields share one set: `a: 5, b: 1` is covered by `a: 1, b: 5`. */
  lemma FieldsCollide(r1: Row, r2: Row)
    requires r1 == Row(1, 5) && r2 == Row(5, 1)
    ensures Deduplicated([r1, r2], FieldList(["a", "b"]), View()) == [r1]
  {
    PairRef(r1);
    PairRef(r2);
    SecondCovered(r1, r2, RefOf(FieldList(["a", "b"]), View()));
  }
}
