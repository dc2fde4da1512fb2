/**
 The editable table demo built on the store: its two demo rows keyed by
 `id`, and the rule by which the Update button patches a row.
 */
module EditableTable {
  import opened Records
  import opened DataStore

  const IdKey := "id"

  /** The demo rows loaded with `setData`: two rows of the row type, with the
      distinct ids `'one'` and `'two'`. */
  function DemoRows(): (rows: seq<Row>)
    ensures |rows| == 2 && Keyed(rows, IdKey)
    ensures forall i :: 0 <= i < |rows| ==> InfoTyped(rows[i])
    ensures IdOf(rows[0], IdKey) == "one" && IdOf(rows[1], IdKey) == "two"
  {
    [
      map["id" := Str("one"), "name" := Str("1"), "value" := Num(1), "another" := Bool(false), "userData" := Str("raz")],
      map["id" := Str("two"), "name" := Str("2"), "value" := Num(2), "another" := Bool(true), "userData" := Str("dva")]
    ]
  }

  /** The fields the Update button reads, as picked by `usePartialDataRow`. */
  const InfoKeys: seq<string> := ["value", "another"]

  /** A record whose `value` is a number and whose `another` is a boolean. */
  predicate InfoTyped(r: Row)
  {
    "value" in r && r["value"].Num? && "another" in r && r["another"].Bool?
  }

  /** A partial record that respects the row type on the two info fields. */
  predicate PatchTyped(p: Row)
  {
    ("value" in p ==> p["value"].Num?) && ("another" in p ==> p["another"].Bool?)
  }

  /** The patch one Update click sends: `value` up by one and `another`
      negated, read from the picked row or, when the row is absent, from the
      fallback `{ value: 1, another: false }`. */
  function UpdatePatch(picked: Option<Row>): (p: Row)
    requires picked.Some? ==> InfoTyped(picked.value)
    ensures p.Keys == {"value", "another"} && PatchTyped(p)
    ensures picked.Some? ==> p["value"] == Num(picked.value["value"].n + 1)
    ensures picked.Some? ==> p["another"] == Bool(!picked.value["another"].b)
    ensures picked.None? ==> p == map["value" := Num(2), "another" := Bool(true)]
  {
    var (value, another) := match picked
      case None => (1, false)
      case Some(r) => (r["value"].n, r["another"].b);
    map["value" := Num(value + 1), "another" := Bool(!another)]
  }

  /** Rows and patches of the right type give effective rows of the right type. */
  lemma EffectiveRowTyped(s: State, id: string)
    requires forall i :: 0 <= i < |s.data| ==> InfoTyped(s.data[i])
    requires forall y :: y in s.patchById ==> PatchTyped(s.patchById[y])
    ensures GetRow(s, id).Some? ==> InfoTyped(GetRow(s, id).value)
  {
  }

  /** One click on a present row: the effective `value` rises by exactly one,
      `another` flips, and every other field of the row stays as it was. */
  lemma ClickOnPresentRow(s: State, id: string)
    requires GetRow(s, id).Some? && InfoTyped(GetRow(s, id).value)
    ensures var t := Patched(s, id, UpdatePatch(PickRow(s, id, InfoKeys)));
      && Field(t, id, "value") == Some(Num(GetRow(s, id).value["value"].n + 1))
      && Field(t, id, "another") == Some(Bool(!GetRow(s, id).value["another"].b))
      && forall f :: f != "value" && f != "another" ==> Field(t, id, f) == Field(s, id, f)
  {
  }

  /** One click on an absent row records the fallback patch
      `{ value: 2, another: true }`, and the row stays absent. */
  lemma ClickOnAbsentRow(s: State, id: string)
    requires GetRow(s, id).None?
    ensures var t := Patched(s, id, UpdatePatch(PickRow(s, id, InfoKeys)));
      && GetRow(t, id).None?
      && PatchOf(t, id) == Merge(PatchOf(s, id), map["value" := Num(2), "another" := Bool(true)])
  {
  }

  /** After loading the demo rows the id list is `['one', 'two']`, and a patch
      on an id without a row does not add it. */
  lemma DemoIds(s: State, value: Row)
    ensures Keyed(Replaced(s, DemoRows(), IdKey).data, IdKey)
    ensures Ids(Replaced(s, DemoRows(), IdKey), IdKey) == [Str("one"), Str("two")]
    ensures Ids(Patched(Replaced(s, DemoRows(), IdKey), "three", value), IdKey) == [Str("one"), Str("two")]
  {
  }

  /** End to end: load the demo rows, subscribe to `['value']` of `'one'`,
      patch `'one'` with `{ value: 2 }`; the projection of `'one'` moves from
      `{ value: 1 }` to `{ value: 2 }` while every projection of `'two'` stays. */
  lemma DemoPatchOne(keys: seq<string>, key: string)
    ensures var s := Replaced(Initial(), DemoRows(), IdKey);
      var t := Patched(s, "one", map["value" := Num(2)]);
      && PickRow(s, "one", ["value"]) == Some(map["value" := Num(1)])
      && PickRow(t, "one", ["value"]) == Some(map["value" := Num(2)])
      && PickRow(t, "two", keys) == PickRow(s, "two", keys)
      && Field(t, "two", key) == Field(s, "two", key)
  {
    var s := Replaced(Initial(), DemoRows(), IdKey);
    var t := Patched(s, "one", map["value" := Num(2)]);
    assert IdOf(DemoRows()[0], IdKey) == "one";
    assert IdOf(DemoRows()[1], IdKey) == "two";
    assert Lookup(s.dataIdIndex, "one") == LastPosition(DemoRows(), IdKey, "one", 2) == Some(0);
    assert PickRow(s, "one", ["value"]).value == map["value" := Num(1)];
    assert PickRow(t, "one", ["value"]).value == map["value" := Num(2)];
    PatchIsolation(s, "one", map["value" := Num(2)], "two", keys, key);
  }
}
