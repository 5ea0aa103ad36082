/** The store that the `tiles!` macro generates: its list of component types
    is fixed when it is built, each type owning one dense column with a
    cell per slot. A type is a `Tag`; every component value is a `V`.
 */
module ClosedTiles {
  import opened Storage
  import opened Fixtures

  class Tiles<Tag(==), V> {
    /** Number of slots; every column has this many cells. */
    const size: nat
    /** The declared component types, in declaration order. */
    const types: seq<Tag>
    /** One column per declared type. */
    const components: map<Tag, array<Option<V>>>

    /** The store's invariant: exactly the declared types have a column,
        every column has `size` cells, and no two types share a column. */
    ghost predicate Valid() {
      && Distinct(types)
      && components.Keys == (set t | t in types)
      && (forall t :: t in components ==> components[t].Length == size)
      && (forall t, u :: t in components && u in components && t != u ==> components[t] != components[u])
    }

    /** The contents of every column. */
    ghost function Columns(): Columns<Tag, V>
      reads components.Values
    {
      map t | t in components :: components[t][..]
    }

    /** `new(size)`: every declared type gets a column of `size` absent cells. */
    constructor (size: nat, types: seq<Tag>)
      requires Distinct(types)
      ensures Valid()
      ensures this.size == size && this.types == types
      ensures forall t :: t in components ==> fresh(components[t])
      ensures Columns() == Fresh(types, size)
    {
      var m := CreateComponentStorage(size, types);
      this.size := size;
      this.types := types;
      this.components := m;
    }

    /** A column of `size` absent cells, filled one cell at a time. */
    static method NewColumn(size: nat) returns (v: array<Option<V>>)
      ensures fresh(v) && v.Length == size
      ensures v[..] == Empty(size)
    {
      v := new Option<V>[size];
      for i := 0 to size
        invariant forall k :: 0 <= k < i ==> v[k] == None
      {
        v[i] := None;
      }
    }

    /** One new column per declared type, each a different array. */
    static method CreateComponentStorage(size: nat, types: seq<Tag>) returns (m: map<Tag, array<Option<V>>>)
      ensures m.Keys == set t | t in types
      ensures forall t :: t in m ==> fresh(m[t]) && m[t].Length == size && m[t][..] == Empty(size)
      ensures forall t, u :: t in m && u in m && t != u ==> m[t] != m[u]
    {
      m := map[];
      for i := 0 to |types|
        invariant m.Keys == set t | t in types[..i]
        invariant forall t :: t in m ==> fresh(m[t]) && m[t].Length == size && m[t][..] == Empty(size)
        invariant forall t, u :: t in m && u in m && t != u ==> m[t] != m[u]
      {
        var v := NewColumn(size);
        m := m[types[i] := v];
        assert types[..i + 1] == types[..i] + [types[i]];
      }
      assert types[..|types|] == types;
    }

    /** `get_components` / `get_components_mut`: the column of a declared type. */
    method GetComponents(tag: Tag) returns (cs: array<Option<V>>)
      requires Valid() && tag in types
      ensures cs == components[tag]
      ensures cs.Length == size && cs[..] == Columns()[tag]
    {
      cs := components[tag];
    }

    /** `add::<tag>(tile, v)`: stores `v`, overwriting any earlier value. */
    method Add(tag: Tag, tile: nat, v: V)
      requires Valid() && tag in types && tile < size
      modifies components[tag]
      ensures Columns() == SetCell(old(Columns()), tag, tile, Some(v))
    {
      var cs := GetComponents(tag);
      cs[tile] := Some(v);
    }

    /** `remove::<tag>(tile)`: leaves the cell absent. */
    method Remove(tag: Tag, tile: nat)
      requires Valid() && tag in types && tile < size
      modifies components[tag]
      ensures Columns() == SetCell(old(Columns()), tag, tile, None)
    {
      var cs := GetComponents(tag);
      cs[tile] := None;
    }

    /** `has::<tag>(tile)`: whether the slot holds a component of that type. */
    function Has(tag: Tag, tile: nat): (b: bool)
      requires Valid() && tag in types && tile < size
      reads components.Values
      ensures b <==> Get(tag, tile).Some?
    {
      components[tag][tile].Some?
    }

    /** `get::<tag>(tile)`: the stored component, if any. */
    function Get(tag: Tag, tile: nat): (r: Option<V>)
      requires Valid() && tag in types && tile < size
      reads components.Values
      ensures r == Columns()[tag][tile]
    {
      components[tag][tile]
    }

    /** `get_mut::<tag>(tile)`, used to write `x` through the returned
        reference: a present component is replaced, an absent one stays
        absent since there is nothing to write through. */
    method GetMut(tag: Tag, tile: nat, x: V) returns (present: bool)
      requires Valid() && tag in types && tile < size
      modifies components[tag]
      ensures present == old(Columns()[tag][tile]).Some?
      ensures Columns() == if present then SetCell(old(Columns()), tag, tile, Some(x)) else old(Columns())
    {
      var cs := GetComponents(tag);
      present := cs[tile].Some?;
      if present {
        cs[tile] := Some(x);
      }
    }

    /** `len()`: the slot count, which is the length of every column. */
    function Len(): (n: nat)
      requires Valid()
      ensures n == size
      ensures forall t :: t in types ==> components[t].Length == n
    {
      size
    }

    /** `take::<tag>(tile)`: removes and returns the component. The source
        unwraps the taken cell, so the cell must be present. */
    method Take(tag: Tag, tile: nat) returns (v: V)
      requires Valid() && tag in types && tile < size
      requires Has(tag, tile)
      modifies components[tag]
      ensures Some(v) == old(Columns()[tag][tile])
      ensures Columns() == SetCell(old(Columns()), tag, tile, None)
    {
      var cs := GetComponents(tag);
      var taken := cs[tile];
      cs[tile] := None;
      v := taken.value;
    }

    /** `transfer::<tag>(source, target)`: the target cell receives the
        source cell (absent or not) and the source is left absent, unless
        source and target are the same slot. */
    method Transfer(tag: Tag, source: nat, target: nat)
      requires Valid() && tag in types && source < size && target < size
      modifies components[tag]
      ensures Columns() == TransferCell(old(Columns()), tag, source, target)
    {
      var cs := GetComponents(tag);
      var taken := cs[source];
      cs[source] := None;
      cs[target] := taken;
    }

    /** `move_tile(source, target)`: transfers the cell of every declared type. */
    method MoveTile(source: nat, target: nat)
      requires Valid() && source < size && target < size
      modifies components.Values
      ensures Columns() == MoveSlot(old(Columns()), types, source, target)
    {
      for i := 0 to |types|
        invariant MoveSlot(Columns(), types[i..], source, target) == MoveSlot(old(Columns()), types, source, target)
      {
        assert types[i..][1..] == types[i + 1..];
        Transfer(types[i], source, target);
      }
    }

    /** `delete(tile)`: removes the slot's component of every declared type. */
    method Delete(tile: nat)
      requires Valid() && tile < size
      modifies components.Values
      ensures Columns() == DeleteSlot(old(Columns()), types, tile)
    {
      for i := 0 to |types|
        invariant DeleteSlot(Columns(), types[i..], tile) == DeleteSlot(old(Columns()), types, tile)
      {
        assert types[i..][1..] == types[i + 1..];
        Remove(types[i], tile);
      }
    }

    /** `clear::<tag>()`: makes every cell of the type's column absent. */
    method Clear(tag: Tag)
      requires Valid() && tag in types
      modifies components[tag]
      ensures Columns() == ClearColumn(old(Columns()), tag)
    {
      var cs := GetComponents(tag);
      for i := 0 to cs.Length
        invariant forall k :: 0 <= k < i ==> cs[k] == None
      {
        cs[i] := None;
      }
      assert cs[..] == Empty(size);
    }

    /** `clear_all()`: clears the column of every declared type. */
    method ClearAll()
      requires Valid()
      modifies components.Values
      ensures Columns() == Storage.ClearAll(old(Columns()), types)
      ensures Columns() == Fresh(types, size)
    {
      for i := 0 to |types|
        invariant Storage.ClearAll(Columns(), types[i..]) == Storage.ClearAll(old(Columns()), types)
      {
        assert types[i..][1..] == types[i + 1..];
        Clear(types[i]);
      }
      ClearAllIsFresh(old(Columns()), types, size);
    }
  }

  /** Test `insert_component_and_get`: a string added to slot 11 of a
      100-slot store is what `get` returns. */
  method InsertComponentAndGet() returns (value: Option<Component>)
    ensures value == Some(Text("Hello"))
  {
    var tileMap := new Tiles<Kind, Component>(100, [F64, Str, I32]);
    tileMap.Add(Str, 11, Text("Hello"));
    value := tileMap.Get(Str, 11);
  }

  /** Test `check_has_after_insert_and_remove`: slot 7 of a 97-slot store
      has no i32 component, has one after `add`, and none after `remove`. */
  method CheckHasAfterInsertAndRemove() returns (before: bool, added: bool, removed: bool)
    ensures !before && added && !removed
  {
    var tileMap := new Tiles<Kind, Component>(97, [F64, Str, I32]);
    before := tileMap.Has(I32, 7);
    tileMap.Add(I32, 7, Int(10));
    added := tileMap.Has(I32, 7);
    tileMap.Remove(I32, 7);
    removed := tileMap.Has(I32, 7);
  }

  /** Test `does_not_have_component`: a fresh one-slot store has no
      component of any declared type. */
  method DoesNotHaveComponent() returns (hasFloat: bool, hasInt: bool, hasText: bool)
    ensures !hasFloat && !hasInt && !hasText
  {
    var tileMap := new Tiles<Kind, Component>(1, [F64, Str, I32]);
    hasFloat := tileMap.Has(F64, 0);
    hasInt := tileMap.Has(I32, 0);
    hasText := tileMap.Has(Str, 0);
  }

  /** `take` hands back the stored value and leaves the cell absent, so a
      second `take` of the same cell is not allowed. */
  method TakeEmptiesCell() returns (taken: Component, left: bool)
    ensures taken == Int(10) && !left
  {
    var tileMap := new Tiles<Kind, Component>(97, [F64, Str, I32]);
    tileMap.Add(I32, 7, Int(10));
    taken := tileMap.Take(I32, 7);
    left := tileMap.Has(I32, 7);
  }

  /** `move_tile` carries each component to the target, vacates the source,
      and drops whatever the target held before. */
  method MoveTileOverwrites() returns (atTarget: Option<Component>, atSource: bool, textAtTarget: Option<Component>)
    ensures atTarget == Some(Int(2)) && !atSource && textAtTarget == None
  {
    var tileMap := new Tiles<Kind, Component>(10, [F64, Str, I32]);
    tileMap.Add(I32, 4, Int(1));
    tileMap.Add(Str, 4, Text("lost"));
    tileMap.Add(I32, 3, Int(2));
    tileMap.MoveTile(3, 4);
    atTarget := tileMap.Get(I32, 4);
    atSource := tileMap.Has(I32, 3);
    textAtTarget := tileMap.Get(Str, 4);
  }
}
