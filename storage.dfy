/** Value-level model of the component columns shared by both store variants.

    A store's state is a map from a component type's tag to its column: a
    sequence with one cell per slot, each cell absent (None) or present
    (Some). The functions here are the specifications that the imperative
    stores in ClosedTiles and OpenTiles are proved against.
 */
module Storage {

  datatype Option<T> = None | Some(value: T)

  /** The dense columns of a store, keyed by component type. */
  type Columns<Tag, V> = map<Tag, seq<Option<V>>>

  predicate Distinct<T(==)>(s: seq<T>) {
    forall i, j :: 0 <= i < j < |s| ==> s[i] != s[j]
  }

  /** Every column of `m` has exactly `n` cells. */
  ghost predicate Sized<Tag, V>(m: Columns<Tag, V>, n: nat) {
    forall t :: t in m ==> |m[t]| == n
  }

  /** A column of `n` absent cells: what a freshly declared type gets. */
  function Empty<V>(n: nat): (c: seq<Option<V>>)
    ensures |c| == n
    ensures forall i :: 0 <= i < n ==> c[i] == None
  {
    seq(n, _ => None)
  }

  /** The columns right after construction: one empty column of `n` cells
      for each declared type and nothing else. */
  function Fresh<Tag, V>(types: seq<Tag>, n: nat): (m: Columns<Tag, V>)
    ensures m.Keys == set t | t in types
    ensures Sized(m, n)
    ensures forall t, i :: t in m && 0 <= i < n ==> m[t][i] == None
  {
    map t | t in types :: Empty(n)
  }

  /** Overwrites one cell; `add`/`insert` store `Some(v)`, `remove` stores `None`. */
  function SetCell<Tag, V>(m: Columns<Tag, V>, tag: Tag, i: nat, x: Option<V>): (r: Columns<Tag, V>)
    requires tag in m && i < |m[tag]|
    ensures r.Keys == m.Keys
    ensures forall t :: t in m ==> |r[t]| == |m[t]|
    ensures r[tag][i] == x
    ensures forall t, j :: t in m && 0 <= j < |m[t]| && (t != tag || j != i) ==> r[t][j] == m[t][j]
  {
    m[tag := m[tag][i := x]]
  }

  /** One column after `transfer(source, target)`: the source cell is taken
      (left absent), then the taken value is written to the target. */
  function Moved<V>(col: seq<Option<V>>, source: nat, target: nat): (c: seq<Option<V>>)
    requires source < |col| && target < |col|
    ensures |c| == |col|
    ensures c[target] == col[source]
    ensures source != target ==> c[source] == None
    ensures forall j :: 0 <= j < |col| && j != source && j != target ==> c[j] == col[j]
  {
    col[source := None][target := col[source]]
  }

  /** `transfer::<tag>(source, target)` on the whole store. */
  function TransferCell<Tag, V>(m: Columns<Tag, V>, tag: Tag, source: nat, target: nat): (r: Columns<Tag, V>)
    requires tag in m && source < |m[tag]| && target < |m[tag]|
    ensures r.Keys == m.Keys
    ensures r[tag] == Moved(m[tag], source, target)
    ensures forall t :: t in m && t != tag ==> r[t] == m[t]
  {
    m[tag := Moved(m[tag], source, target)]
  }

  /** `clear::<tag>()`: every cell of one column becomes absent. */
  function ClearColumn<Tag, V>(m: Columns<Tag, V>, tag: Tag): (r: Columns<Tag, V>)
    requires tag in m
    ensures r.Keys == m.Keys
    ensures |r[tag]| == |m[tag]|
    ensures forall i :: 0 <= i < |r[tag]| ==> r[tag][i] == None
    ensures forall t :: t in m && t != tag ==> r[t] == m[t]
  {
    m[tag := Empty(|m[tag]|)]
  }

  /** `delete(tile)`: removes the slot's component of each type in `types`,
      one type after the other. */
  function DeleteSlot<Tag, V>(m: Columns<Tag, V>, types: seq<Tag>, tile: nat): (r: Columns<Tag, V>)
    requires forall t :: t in types ==> t in m && tile < |m[t]|
    ensures r.Keys == m.Keys
    ensures forall t :: t in m ==> |r[t]| == |m[t]|
    ensures forall t :: t in types ==> r[t][tile] == None
    ensures forall t, j :: t in m && 0 <= j < |m[t]| && (t !in types || j != tile) ==> r[t][j] == m[t][j]
    decreases |types|
  {
    if types == [] then m
    else DeleteSlot(SetCell(m, types[0], tile, None), types[1..], tile)
  }

  /** `move_tile(source, target)`: transfers the cell of each type in `types`,
      one type after the other. */
  function MoveSlot<Tag, V>(m: Columns<Tag, V>, types: seq<Tag>, source: nat, target: nat): (r: Columns<Tag, V>)
    requires forall t :: t in types ==> t in m && source < |m[t]| && target < |m[t]|
    ensures r.Keys == m.Keys
    ensures forall t :: t in m ==> |r[t]| == |m[t]|
    ensures forall t :: t in m && t !in types ==> r[t] == m[t]
    ensures Distinct(types) ==> forall t :: t in types ==> r[t] == Moved(m[t], source, target)
    decreases |types|
  {
    if types == [] then m
    else MoveSlot(TransferCell(m, types[0], source, target), types[1..], source, target)
  }

  /** `clear_all()`: clears the column of each type in `types`. */
  function ClearAll<Tag, V>(m: Columns<Tag, V>, types: seq<Tag>): (r: Columns<Tag, V>)
    requires forall t :: t in types ==> t in m
    ensures r.Keys == m.Keys
    ensures forall t :: t in m ==> |r[t]| == |m[t]|
    ensures forall t, i :: t in types && 0 <= i < |m[t]| ==> r[t][i] == None
    ensures forall t :: t in m && t !in types ==> r[t] == m[t]
    decreases |types|
  {
    if types == [] then m
    else ClearAll(ClearColumn(m, types[0]), types[1..])
  }

  /** Transferring a slot onto itself changes nothing: the value taken out
      is put straight back. */
  lemma MovedOntoItself<V>(col: seq<Option<V>>, slot: nat)
    requires slot < |col|
    ensures Moved(col, slot, slot) == col
  {
  }

  /** Moving a slot overwrites whatever the target held: the earlier target
      value is lost, and the source is vacated. */
  lemma MoveOverwritesTarget<Tag, V>(m: Columns<Tag, V>, types: seq<Tag>, tag: Tag,
                                     source: nat, target: nat, older: V, newer: V)
    requires Distinct(types) && tag in types
    requires forall t :: t in types ==> t in m && source < |m[t]| && target < |m[t]|
    requires source != target
    ensures var m1 := SetCell(SetCell(m, tag, target, Some(older)), tag, source, Some(newer));
            var r := MoveSlot(m1, types, source, target);
            r[tag][target] == Some(newer) && r[tag][source] == None
  {
  }

  /** Removing a component twice is the same as removing it once. */
  lemma RemoveIdempotent<Tag, V>(m: Columns<Tag, V>, tag: Tag, i: nat)
    requires tag in m && i < |m[tag]|
    ensures SetCell(SetCell(m, tag, i, None), tag, i, None) == SetCell(m, tag, i, None)
  {
    var once := SetCell(m, tag, i, None);
    assert once[tag][i := None] == once[tag];
  }

  /** Deleting a slot twice is the same as deleting it once. */
  lemma {:induction false} DeleteSlotIdempotent<Tag, V>(m: Columns<Tag, V>, types: seq<Tag>, tile: nat)
    requires forall t :: t in types ==> t in m && tile < |m[t]|
    ensures DeleteSlot(DeleteSlot(m, types, tile), types, tile) == DeleteSlot(m, types, tile)
  {
    var once := DeleteSlot(m, types, tile);
    var twice := DeleteSlot(once, types, tile);
    forall t | t in once
      ensures twice[t] == once[t]
    {
      assert |twice[t]| == |once[t]|;
      forall j | 0 <= j < |once[t]|
        ensures twice[t][j] == once[t][j]
      {
        if t in types && j == tile {
        }
      }
    }
  }

  /** `clear_all` returns a store to the state `new` built: every declared
      column all-absent, with its length kept. */
  lemma ClearAllIsFresh<Tag, V>(m: Columns<Tag, V>, types: seq<Tag>, n: nat)
    requires m.Keys == set t | t in types
    requires Sized(m, n)
    ensures ClearAll(m, types) == Fresh(types, n)
  {
    var r := ClearAll(m, types);
    var f: Columns<Tag, V> := Fresh(types, n);
    forall t | t in r
      ensures r[t] == f[t]
    {
      assert |r[t]| == n == |f[t]|;
    }
  }

  /** Re-declaring a type (registering it again) discards everything stored
      for it: a write followed by re-declaration leaves the same columns as
      re-declaring alone. */
  lemma RedeclareDiscards<Tag, V>(m: Columns<Tag, V>, tag: Tag, i: nat, v: V, n: nat)
    requires tag in m && i < |m[tag]|
    ensures SetCell(m, tag, i, Some(v))[tag := Empty(n)] == m[tag := Empty(n)]
  {
  }
}
