/** The open store: component types are registered one at a time after the
    store is built, and the store keeps the set of registered types next
    to the map from type to column. A type is a `Tag`; every component
    value is a `V`.
 */
module OpenTiles {
  import opened Storage
  import opened Fixtures

  class Tiles<Tag(==), V> {
    /** Number of slots; every column has this many cells. */
    const size: nat
    /** The types registered so far. */
    var registered: set<Tag>
    /** One column per registered type. */
    var components: map<Tag, array<Option<V>>>

    /** The store's invariant: the registered set is exactly the set of types
        with a column, every column has `size` cells, and no two types share
        a column. */
    ghost predicate Valid()
      reads this
    {
      && registered == components.Keys
      && (forall t :: t in components ==> components[t].Length == size)
      && (forall t, u :: t in components && u in components && t != u ==> components[t] != components[u])
    }

    /** The contents of every column. */
    ghost function Columns(): Columns<Tag, V>
      reads this, components.Values
    {
      map t | t in components :: components[t][..]
    }

    /** `new(size)`: no type is registered and there are no columns. */
    constructor (size: nat)
      ensures Valid()
      ensures this.size == size
      ensures registered == {} && Columns() == map[]
    {
      this.size := size;
      registered := {};
      components := map[];
    }

    /** `get_components` / `get_components_mut`: the column of a registered type. */
    method GetComponents(tag: Tag) returns (cs: array<Option<V>>)
      requires Valid() && tag in registered
      ensures cs == components[tag]
      ensures cs.Length == size && cs[..] == Columns()[tag]
    {
      cs := components[tag];
    }

    /** `register::<tag>()`: records the type and installs a new column of
        `size` absent cells for it. Registering a type again keeps the set
        as it was but replaces the type's column, losing its contents. */
    method Register(tag: Tag)
      requires Valid()
      modifies this
      ensures Valid()
      ensures registered == old(registered) + {tag}
      ensures fresh(components[tag])
      ensures components == old(components)[tag := components[tag]]
      ensures Columns() == old(Columns())[tag := Empty(size)]
    {
      registered := registered + {tag};
      var v := new Option<V>[size];
      for i := 0 to size
        modifies v
        invariant forall k :: 0 <= k < i ==> v[k] == None
      {
        v[i] := None;
      }
      assert v[..] == Empty(size);
      components := components[tag := v];
    }

    /** `get::<tag>(tile)`: the stored component, if any. */
    function Get(tag: Tag, tile: nat): (r: Option<V>)
      requires Valid() && tag in registered && tile < size
      reads this, components.Values
      ensures r == Columns()[tag][tile]
    {
      components[tag][tile]
    }

    /** `insert::<tag>(tile, v)`: stores `v`, overwriting any earlier value. */
    method Insert(tag: Tag, tile: nat, v: V)
      requires Valid() && tag in registered && tile < size
      modifies components[tag]
      ensures Columns() == SetCell(old(Columns()), tag, tile, Some(v))
    {
      var cs := GetComponents(tag);
      cs[tile] := Some(v);
    }

    /** `remove::<tag>(tile)`: leaves the cell absent. */
    method Remove(tag: Tag, tile: nat)
      requires Valid() && tag in registered && tile < size
      modifies components[tag]
      ensures Columns() == SetCell(old(Columns()), tag, tile, None)
    {
      var cs := GetComponents(tag);
      cs[tile] := None;
    }

    /** `has::<tag>(tile)`: whether the slot holds a component of that type. */
    function Has(tag: Tag, tile: nat): (b: bool)
      requires Valid() && tag in registered && tile < size
      reads this, components.Values
      ensures b <==> Get(tag, tile).Some?
    {
      components[tag][tile].Some?
    }
  }

  /** Test `insert_component_and_get`: after registering `String`, a string
      inserted at slot 11 of a 100-slot store is what `get` returns. */
  method InsertComponentAndGet() returns (value: Option<Component>)
    ensures value == Some(Text("Hello"))
  {
    var tileMap := new Tiles<Kind, Component>(100);
    tileMap.Register(Str);
    tileMap.Insert(Str, 11, Text("Hello"));
    value := tileMap.Get(Str, 11);
  }

  /** Test `check_has_after_insert_and_remove`: after registering `i32`, slot 7
      of a 97-slot store has no component, has one after `insert`, and none
      after `remove`. */
  method CheckHasAfterInsertAndRemove() returns (before: bool, inserted: bool, removed: bool)
    ensures !before && inserted && !removed
  {
    var tileMap := new Tiles<Kind, Component>(97);
    tileMap.Register(I32);
    before := tileMap.Has(I32, 7);
    tileMap.Insert(I32, 7, Int(10));
    inserted := tileMap.Has(I32, 7);
    tileMap.Remove(I32, 7);
    removed := tileMap.Has(I32, 7);
  }

  /** Registering a type a second time discards what was stored for it,
      while the registered set stays the same. */
  method RegisterAgainDiscards() returns (kept: bool, registeredTwice: bool)
    ensures !kept && registeredTwice
  {
    var tileMap := new Tiles<Kind, Component>(10);
    tileMap.Register(I32);
    tileMap.Insert(I32, 3, Int(10));
    var once := tileMap.registered;
    tileMap.Register(I32);
    kept := tileMap.Has(I32, 3);
    registeredTwice := tileMap.registered == once;
  }
}
