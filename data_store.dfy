/**
 The keyed record store with a patch overlay built by `createDataStore`:
 base rows, an index from stringified id to row position, and an overlay of
 accumulated partial records keyed by id. The store's two writers are pure
 functions from state to state (`Replaced`, `Patched`), applied in place by
 the methods of `Store`; the reads (`GetRow` and the three projections) are
 pure functions of a state.
 */
module DataStore {
  import opened Records

  /** The three data fields of the store's state. */
  datatype State = State(data: seq<Row>, dataIdIndex: map<string, nat>, patchById: map<string, Row>)

  /** `String(row[idKey])`; a row without the id field stringifies `undefined`. */
  function IdOf(row: Row, idKey: string): (r: string)
    ensures idKey in row && row[idKey].Str? ==> r == row[idKey].s
    ensures idKey !in row ==> r == "undefined"
  {
    if idKey in row then Stringify(row[idKey]) else "undefined"
  }

  /** Every row carries the id field, as the row type demands. */
  ghost predicate Keyed(rows: seq<Row>, idKey: string)
  {
    forall i :: 0 <= i < |rows| ==> idKey in rows[i]
  }

  // ---------------------------------------------------------------- index

  /** The `reduce` over `rows` from position `i` on, with accumulator `acc`:
      each row stores its own position under its id, later rows overwriting. */
  function IndexFrom(rows: seq<Row>, idKey: string, i: nat, acc: map<string, nat>): (r: map<string, nat>)
    requires i <= |rows|
    ensures acc.Keys <= r.Keys
    ensures forall j :: i <= j < |rows| ==> IdOf(rows[j], idKey) in r
    decreases |rows| - i
  {
    if i == |rows| then acc else IndexFrom(rows, idKey, i + 1, acc[IdOf(rows[i], idKey) := i])
  }

  /** The positions the fold stores: an entry is the accumulator's or the
      position, at or after `i`, of a row with that id; and each row from `i`
      on has its id stored at its own position or a later one. */
  lemma {:induction false} IndexFromPositions(rows: seq<Row>, idKey: string, i: nat, acc: map<string, nat>)
    requires i <= |rows|
    ensures var r := IndexFrom(rows, idKey, i, acc);
      forall k :: k in r ==> (k in acc && r[k] == acc[k]) || (i <= r[k] < |rows| && IdOf(rows[r[k]], idKey) == k)
    ensures var r := IndexFrom(rows, idKey, i, acc);
      forall j :: i <= j < |rows| ==> r[IdOf(rows[j], idKey)] >= j
    decreases |rows| - i
  {
    if i < |rows| {
      IndexFromPositions(rows, idKey, i + 1, acc[IdOf(rows[i], idKey) := i]);
    }
  }

  /** `dataIdIndex` as `setData` builds it: the fold from an empty object.
      Every entry points inside `rows` at a row with that id, every row's id
      is indexed, and at a position no earlier than the row's own, so on
      duplicate ids the last position wins. */
  function BuildIndex(rows: seq<Row>, idKey: string): (r: map<string, nat>)
    ensures forall k :: k in r ==> r[k] < |rows| && IdOf(rows[r[k]], idKey) == k
    ensures forall j :: 0 <= j < |rows| ==> IdOf(rows[j], idKey) in r && r[IdOf(rows[j], idKey)] >= j
  {
    IndexFromPositions(rows, idKey, 0, map[]);
    IndexFrom(rows, idKey, 0, map[])
  }

  /** Reference definition of the index entry for `id`: the last position
      below `n` whose row has that id, if any. */
  function LastPosition(rows: seq<Row>, idKey: string, id: string, n: nat): (r: Option<nat>)
    requires n <= |rows|
    ensures r.Some? ==> r.value < n && IdOf(rows[r.value], idKey) == id
    ensures r.Some? ==> forall k :: r.value < k < n ==> IdOf(rows[k], idKey) != id
    ensures r.None? <==> forall k :: 0 <= k < n ==> IdOf(rows[k], idKey) != id
  {
    if n == 0 then None
    else if IdOf(rows[n - 1], idKey) == id then Some(n - 1)
    else LastPosition(rows, idKey, id, n - 1)
  }

  /** One step of the fold keeps the accumulator's entry for `id` equal to the
      last position of `id` in the rows seen so far. */
  lemma StepTracksLast(rows: seq<Row>, idKey: string, id: string, i: nat, acc: map<string, nat>)
    requires i < |rows|
    requires Lookup(acc, id) == LastPosition(rows, idKey, id, i)
    ensures Lookup(acc[IdOf(rows[i], idKey) := i], id) == LastPosition(rows, idKey, id, i + 1)
  {
  }

  /** Folding on from position `i` with an accumulator that already holds the
      last position below `i` for `id` ends with the last position overall. */
  lemma {:induction false} IndexFromTracksLast(rows: seq<Row>, idKey: string, id: string, i: nat, acc: map<string, nat>)
    requires i <= |rows|
    requires Lookup(acc, id) == LastPosition(rows, idKey, id, i)
    ensures Lookup(IndexFrom(rows, idKey, i, acc), id) == LastPosition(rows, idKey, id, |rows|)
    decreases |rows| - i
  {
    if i < |rows| {
      var next := acc[IdOf(rows[i], idKey) := i];
      StepTracksLast(rows, idKey, id, i, acc);
      IndexFromTracksLast(rows, idKey, id, i + 1, next);
      assert IndexFrom(rows, idKey, i, acc) == IndexFrom(rows, idKey, i + 1, next);
    }
  }

  /** The index maps every id to the last position of a row with that id,
      and holds no other id. */
  lemma BuildIndexIsLastPosition(rows: seq<Row>, idKey: string, id: string)
    ensures Lookup(BuildIndex(rows, idKey), id) == LastPosition(rows, idKey, id, |rows|)
  {
    IndexFromTracksLast(rows, idKey, id, 0, map[]);
  }

  /** The index property in plain terms: an id is indexed exactly when some row
      has it, its entry points inside `rows` at a row with that id, and no later
      row has it (on duplicates the last position wins). */
  lemma IndexLastWins(rows: seq<Row>, idKey: string, id: string)
    ensures id in BuildIndex(rows, idKey) <==> exists j :: 0 <= j < |rows| && IdOf(rows[j], idKey) == id
    ensures id in BuildIndex(rows, idKey) ==>
      var j := BuildIndex(rows, idKey)[id];
      j < |rows| && IdOf(rows[j], idKey) == id &&
      forall k :: j < k < |rows| ==> IdOf(rows[k], idKey) != id
  {
    BuildIndexIsLastPosition(rows, idKey, id);
  }

  // ---------------------------------------------------------------- reads

  /** `patchById[id] || {}`. */
  function PatchOf(s: State, id: string): (r: Row)
    ensures id in s.patchById ==> r == s.patchById[id]
    ensures id !in s.patchById ==> r == map[]
  {
    if id in s.patchById then s.patchById[id] else map[]
  }

  /** `getRow`: absent unless the index holds `id` at a position inside
      `data`; otherwise the base row with the patch for `id` spread on top. */
  function GetRow(s: State, id: string): (r: Option<Row>)
    ensures r.Some? <==> id in s.dataIdIndex && s.dataIdIndex[id] < |s.data|
    ensures r.Some? ==> forall f :: f in r.value <==> f in s.data[s.dataIdIndex[id]] || f in PatchOf(s, id)
    ensures r.Some? ==> forall f :: f in PatchOf(s, id) ==> r.value[f] == PatchOf(s, id)[f]
    ensures r.Some? ==> forall f :: f in s.data[s.dataIdIndex[id]] && f !in PatchOf(s, id) ==>
      r.value[f] == s.data[s.dataIdIndex[id]][f]
  {
    if id in s.dataIdIndex && s.dataIdIndex[id] < |s.data| then
      Some(Merge(s.data[s.dataIdIndex[id]], PatchOf(s, id)))
    else
      None
  }

  /** Row projection of `usePartialDataRow`: `row && pick(row, keys)`. */
  function PickRow(s: State, id: string, keys: seq<string>): (r: Option<Row>)
    ensures r.Some? <==> GetRow(s, id).Some?
    ensures r.Some? ==> forall f :: f in r.value <==> f in keys && f in GetRow(s, id).value
    ensures r.Some? ==> forall f :: f in r.value ==> r.value[f] == GetRow(s, id).value[f]
  {
    match GetRow(s, id)
    case None => None
    case Some(row) => Some(Pick(row, keys))
  }

  /** Field projection of `usePartialDataField`: `row && row[key]`. */
  function Field(s: State, id: string, key: string): (r: Option<Value>)
    ensures r.Some? <==> GetRow(s, id).Some? && key in GetRow(s, id).value
    ensures r.Some? ==> r.value == GetRow(s, id).value[key]
  {
    match GetRow(s, id)
    case None => None
    case Some(row) => Lookup(row, key)
  }

  /** Id-list projection of `useIds`: `data.map(row => row[idKey])`. */
  function Ids(s: State, idKey: string): (r: seq<Value>)
    requires Keyed(s.data, idKey)
    ensures |r| == |s.data|
    ensures forall i :: 0 <= i < |r| ==> r[i] == s.data[i][idKey]
  {
    seq(|s.data|, i requires 0 <= i < |s.data| => s.data[i][idKey])
  }

  // ---------------------------------------------------------------- writes

  /** The state before any `setData`. */
  function Initial(): (s: State)
    ensures s.data == [] && s.patchById == map[]
    ensures forall id :: GetRow(s, id).None?
  {
    State([], map[], map[])
  }

  /** The state update of `setData(rows)`: new rows, an index rebuilt from
      scratch, the overlay kept. */
  function Replaced(s: State, rows: seq<Row>, idKey: string): (t: State)
    ensures t.data == rows && t.patchById == s.patchById
    ensures forall id :: Lookup(t.dataIdIndex, id) == LastPosition(rows, idKey, id, |rows|)
  {
    IndexAllLastPositions(rows, idKey);
    s.(data := rows, dataIdIndex := BuildIndex(rows, idKey))
  }

  lemma IndexAllLastPositions(rows: seq<Row>, idKey: string)
    ensures forall id :: Lookup(BuildIndex(rows, idKey), id) == LastPosition(rows, idKey, id, |rows|)
  {
    forall id ensures Lookup(BuildIndex(rows, idKey), id) == LastPosition(rows, idKey, id, |rows|) {
      BuildIndexIsLastPosition(rows, idKey, id);
    }
  }

  /** The state update of `setPartial(id, value)`: the overlay entry for `id`
      becomes the old entry (or `{}`) with `value` spread on top. */
  function Patched(s: State, id: string, value: Row): (t: State)
    ensures t.data == s.data && t.dataIdIndex == s.dataIdIndex
    ensures Lookup(t.patchById, id) == Some(Merge(PatchOf(s, id), value))
    ensures forall y :: y != id ==> Lookup(t.patchById, y) == Lookup(s.patchById, y)
  {
    s.(patchById := s.patchById[id := Merge(PatchOf(s, id), value)])
  }

  /** A state whose index is the one `setData` built for its rows. */
  ghost predicate Indexed(s: State, idKey: string)
  {
    s.dataIdIndex == BuildIndex(s.data, idKey)
  }

  // ---------------------------------------------------------------- the store

  /** The store object: `setData` and `setPartial` replace its fields. */
  class Store {
    const idKey: string
    var data: seq<Row>
    var dataIdIndex: map<string, nat>
    var patchById: map<string, Row>

    function Snapshot(): State
      reads this
    {
      State(data, dataIdIndex, patchById)
    }

    /** The index always reflects exactly the current rows. */
    ghost predicate Valid()
      reads this
    {
      Keyed(data, idKey) && Indexed(Snapshot(), idKey)
    }

    /** `createDataStore(idKey)`: no rows, no index, no patches, so no id resolves. */
    constructor (idKey: string)
      ensures this.idKey == idKey
      ensures Snapshot() == Initial()
      ensures Valid()
      ensures forall id :: GetRow(Snapshot(), id) == None
    {
      this.idKey := idKey;
      data := [];
      dataIdIndex := map[];
      patchById := map[];
    }

    /** `setData(rows)`. */
    method SetData(rows: seq<Row>)
      requires Keyed(rows, idKey)
      modifies this
      ensures Snapshot() == Replaced(old(Snapshot()), rows, idKey)
      ensures Valid()
    {
      data := rows;
      dataIdIndex := BuildIndex(rows, idKey);
    }

    /** `setPartial(id, value)`; the rows, the index and every other id's
        effective row are unchanged. */
    method SetPartial(id: string, value: Row)
      modifies this
      ensures Snapshot() == Patched(old(Snapshot()), id, value)
      ensures old(Valid()) ==> Valid()
      ensures forall y :: y != id ==> GetRow(Snapshot(), y) == GetRow(old(Snapshot()), y)
    {
      patchById := patchById[id := Merge(PatchOf(Snapshot(), id), value)];
    }
  }

  // ---------------------------------------------------------------- properties

  /** Before any `setData` nothing resolves, whatever patches exist. */
  lemma NothingResolvesBeforeLoad(patches: map<string, Row>, id: string, key: string)
    ensures GetRow(State([], map[], patches), id) == None
    ensures Field(State([], map[], patches), id, key) == None
  {
  }

  /** In an indexed state an id resolves exactly when some row has it, and then
      to the LAST such row with the id's patch spread on top. */
  lemma ResolvesToLastRow(s: State, idKey: string, id: string)
    requires Indexed(s, idKey)
    ensures GetRow(s, id).Some? <==> exists j :: 0 <= j < |s.data| && IdOf(s.data[j], idKey) == id
    ensures GetRow(s, id).Some? ==>
      exists j :: 0 <= j < |s.data| && IdOf(s.data[j], idKey) == id &&
        (forall k :: j < k < |s.data| ==> IdOf(s.data[k], idKey) != id) &&
        GetRow(s, id).value == Merge(s.data[j], PatchOf(s, id))
  {
    IndexLastWins(s.data, idKey, id);
  }

  /** Every id the list shows resolves to a row. */
  lemma ListedIdsResolve(s: State, idKey: string, i: nat)
    requires Indexed(s, idKey) && Keyed(s.data, idKey)
    requires i < |s.data|
    ensures GetRow(s, Stringify(Ids(s, idKey)[i])).Some?
  {
    ResolvesToLastRow(s, idKey, Stringify(Ids(s, idKey)[i]));
    assert IdOf(s.data[i], idKey) == Stringify(Ids(s, idKey)[i]);
  }

  /** A valid store resolves an id exactly when one of its rows has it, to the
      last such row with the id's patch on top, and resolves every listed id. */
  lemma ValidStoreResolves(st: Store, id: string)
    requires st.Valid()
    ensures GetRow(st.Snapshot(), id).Some? <==> exists j :: 0 <= j < |st.data| && IdOf(st.data[j], st.idKey) == id
    ensures GetRow(st.Snapshot(), id).Some? ==>
      exists j :: 0 <= j < |st.data| && IdOf(st.data[j], st.idKey) == id &&
        (forall k :: j < k < |st.data| ==> IdOf(st.data[k], st.idKey) != id) &&
        GetRow(st.Snapshot(), id).value == Merge(st.data[j], PatchOf(st.Snapshot(), id))
    ensures forall i :: 0 <= i < |st.data| ==> GetRow(st.Snapshot(), Stringify(st.data[i][st.idKey])).Some?
  {
    var s := st.Snapshot();
    ResolvesToLastRow(s, st.idKey, id);
    forall i | 0 <= i < |st.data| ensures GetRow(s, Stringify(st.data[i][st.idKey])).Some? {
      ListedIdsResolve(s, st.idKey, i);
    }
  }

  /** `setData` keeps the overlay: after a replacement the patch of any id that
      resolves still shows through, field for field. */
  lemma ReplacementKeepsOverlay(s: State, rows: seq<Row>, idKey: string, id: string, f: string)
    requires f in PatchOf(s, id)
    requires exists j :: 0 <= j < |rows| && IdOf(rows[j], idKey) == id
    ensures Field(Replaced(s, rows, idKey), id, f) == Some(PatchOf(s, id)[f])
  {
    var t := Replaced(s, rows, idKey);
    assert Lookup(t.dataIdIndex, id).Some?;
  }

  /** `setPartial` acts on the effective row exactly as spreading `value` on it. */
  lemma PatchedRowIsMerged(s: State, id: string, value: Row)
    ensures GetRow(Patched(s, id, value), id) ==
      match GetRow(s, id)
      case None => None
      case Some(row) => Some(Merge(row, value))
  {
    if GetRow(s, id).Some? {
      MergeTwice(s.data[s.dataIdIndex[id]], PatchOf(s, id), value);
    }
  }

  /** A patch whose fields already hold those values in the effective row
      leaves the effective row, and so every projection of it, equal. */
  lemma PatchWithCurrentValues(s: State, id: string, value: Row)
    requires GetRow(s, id).Some? ==> forall f :: f in value ==> f in GetRow(s, id).value && GetRow(s, id).value[f] == value[f]
    ensures GetRow(Patched(s, id, value), id) == GetRow(s, id)
  {
    PatchedRowIsMerged(s, id, value);
    if GetRow(s, id).Some? {
      var row := GetRow(s, id).value;
      assert Merge(row, value) == row;
    }
  }

  /** Patches accumulate: two `setPartial` calls on one id equal one call with
      the two values spread together. */
  lemma PatchesAccumulate(s: State, id: string, v1: Row, v2: Row)
    ensures Patched(Patched(s, id, v1), id, v2) == Patched(s, id, Merge(v1, v2))
  {
    MergeTwice(PatchOf(s, id), v1, v2);
  }

  /** Isolation: patching `id` changes no projection of any other id. */
  lemma PatchIsolation(s: State, id: string, value: Row, other: string, keys: seq<string>, key: string)
    requires other != id
    ensures GetRow(Patched(s, id, value), other) == GetRow(s, other)
    ensures PickRow(Patched(s, id, value), other, keys) == PickRow(s, other, keys)
    ensures Field(Patched(s, id, value), other, key) == Field(s, other, key)
  {
  }

  /** A patch never adds, removes or reorders listed ids, even for an id that
      has no row. */
  lemma PatchKeepsIds(s: State, idKey: string, id: string, value: Row)
    requires Keyed(s.data, idKey)
    ensures Ids(Patched(s, id, value), idKey) == Ids(s, idKey)
  {
  }

  /** Loading two rows with the same id `'x'`: the second one is what `'x'`
      resolves to. */
  lemma DuplicateIdLastWins()
    ensures var rows := [map["id" := Str("x"), "v" := Num(1)], map["id" := Str("x"), "v" := Num(2)]];
      GetRow(Replaced(Initial(), rows, "id"), "x") == Some(map["id" := Str("x"), "v" := Num(2)])
  {
    var rows := [map["id" := Str("x"), "v" := Num(1)], map["id" := Str("x"), "v" := Num(2)]];
    assert IdOf(rows[1], "id") == "x";
    assert Lookup(Replaced(Initial(), rows, "id").dataIdIndex, "x") == Some(1);
    MergeEmpty(rows[1]);
  }

  /** Base `{id: 'y', a: 1, b: 2}`, patch `{b: 3}` resolves to `{id: 'y', a: 1, b: 3}`;
      a further patch `{a: 5}` gives `{id: 'y', a: 5, b: 3}`. */
  lemma PatchPrecedenceExample()
    ensures var s := Replaced(Initial(), [map["id" := Str("y"), "a" := Num(1), "b" := Num(2)]], "id");
      var s1 := Patched(s, "y", map["b" := Num(3)]);
      var s2 := Patched(s1, "y", map["a" := Num(5)]);
      && GetRow(s1, "y") == Some(map["id" := Str("y"), "a" := Num(1), "b" := Num(3)])
      && GetRow(s2, "y") == Some(map["id" := Str("y"), "a" := Num(5), "b" := Num(3)])
  {
    var rows := [map["id" := Str("y"), "a" := Num(1), "b" := Num(2)]];
    var s := Replaced(Initial(), rows, "id");
    assert IdOf(rows[0], "id") == "y";
    assert Lookup(s.dataIdIndex, "y") == Some(0);
    var s1 := Patched(s, "y", map["b" := Num(3)]);
    assert GetRow(s1, "y").value == map["id" := Str("y"), "a" := Num(1), "b" := Num(3)];
    var s2 := Patched(s1, "y", map["a" := Num(5)]);
    assert GetRow(s2, "y").value == map["id" := Str("y"), "a" := Num(5), "b" := Num(3)];
  }
}
