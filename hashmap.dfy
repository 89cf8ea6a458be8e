/**
 * The map as the source keeps it: a heap object whose slot array, `stored`
 * and `can_store` fields are updated in place (json.c:38-160). Every method
 * is proved to leave the object in the state the functions of HashTable
 * compute, so the lemmas there describe what the methods do.
 */
module HashMaps {
  import Fnv
  import opened HashTable

  /**
   * The probe loop shared by hashmap_set, hashmap_index and hashmap_remove:
   * start at `hash & (can_store - 1)` and step forward, wrapping at the end,
   * until an empty slot or the slot holding `key`.
   */
  method LocateIn<V>(items: array<Slot<V>>, key: string) returns (index: nat)
    requires items.Length >= 1 && HasEmpty(items[..])
    ensures index == Locate(items[..], key)
  {
    var hash := Fnv.HashFunc(key);
    index := BitAnd(hash as int, (items.Length - 1) % WordSize);
    ghost var fuel: nat := items.Length;
    ghost var e :| 0 <= e < items.Length && items[e].Empty?;
    while !IsStop(items[index], key)
      invariant index < items.Length
      invariant Dist(index, e, items.Length) < fuel
      invariant Probe(items[..], key, index, fuel) == Locate(items[..], key)
      decreases fuel
    {
      assert index != e;
      index := index + 1;
      if index >= items.Length {
        index := 0;
      }
      fuel := fuel - 1;
    }
  }

  /**
   * The copy loop of check_hashmap_capacity (json.c:78-82), re-inserting each
   * entry at the slot its probe reaches in a fresh array of `size` empty slots.
   */
  method Rehash<V>(items: array<Slot<V>>, size: nat) returns (grown: array<Slot<V>>)
    requires size >= 1 && UniqueKeys(items[..]) && CountOccupied(items[..]) < size
    ensures fresh(grown)
    ensures grown[..] == Rebuild(seq(size, _ => Empty), items[..])
  {
    grown := new Slot<V>[size](_ => Empty);
    ghost var empties := grown[..];
    assert empties == seq(size, _ => Empty);
    var i := 0;
    while i < items.Length
      invariant 0 <= i <= items.Length
      invariant grown.Length == size
      invariant grown[..] == Rebuild(empties, items[..i])
      modifies grown
    {
      UniquePrefix(items[..], i);
      CountPrefix(items[..], i);
      RebuildSpec(empties, items[..i]);
      assert items[..i + 1] == items[..i] + [items[i]];
      assert items[..i + 1][..i] == items[..i];
      var item := items[i];
      if item.Occupied? {
        RoomHasEmpty(grown[..]);
        var index := LocateIn(grown, item.key);
        grown[index] := item;
      }
      i := i + 1;
    }
    assert items[..i] == items[..];
  }

  /** A string-keyed map with values of type V (the HashMap struct of json.h). */
  class HashMap<V> {
    var items: array<Slot<V>>
    var stored: nat
    var canStore: nat
    var tombstones: nat

    /** The map as a value. */
    ghost function Model(): Table<V>
      reads this, items
    {
      Table(items[..], stored, tombstones)
    }

    /** `can_store` is the length of `items`, and the table invariant holds. */
    ghost predicate Valid()
      reads this, items
    {
      canStore == items.Length && Inv(Model())
    }

    /** new_hashmap(capacity): an empty map with `capacity` slots (json.c:38-53, allocation failure aside). */
    constructor(capacity: nat)
      ensures Valid()
      ensures Model() == New(capacity)
      ensures fresh(items)
    {
      canStore := capacity;
      stored := 0;
      tombstones := 0;
      var slots := new Slot<V>[capacity](_ => Empty);
      assert slots[..] == seq(capacity, _ => Empty);
      items := slots;
      NewSpec<V>(capacity);
    }

    /** hashmap_index: the value stored under `key`, if any (json.c:125-141). */
    method Index(key: string) returns (r: Option<V>)
      requires Valid() && items.Length >= 1
      ensures r == Get(Model(), key)
    {
      RoomHasEmpty(items[..]);
      var index := LocateIn(items, key);
      if items[index].Occupied? && items[index].key == key {
        r := Some(items[index].val);
      } else {
        r := None;
      }
    }

    /**
     * check_hashmap_capacity(map, n) (json.c:67-89): when fewer than n + 1
     * slots would stay free, every entry is re-inserted into a larger array.
     */
    method CheckCapacity(n: nat)
      requires Valid()
      modifies this
      ensures Valid()
      ensures Model() == Reserve(old(Model()), n)
      ensures Contents(Model().slots) == old(Contents(Model().slots)) && stored == old(stored)
      ensures stored + tombstones + n + 1 <= canStore
      ensures items == old(items) || fresh(items)
    {
      if stored + tombstones + n + 1 > canStore {
        var size := GrowTo(canStore, n);
        var grown := Rehash(items, size);
        ReserveSpec(old(Model()), n);
        items := grown;
        canStore := size;
        tombstones := 0;
      } else {
        ReserveSpec(Model(), n);
      }
    }

    /**
     * hashmap_set (json.c:91-112): make room for one more entry, then write
     * the entry over the key's slot, or into the empty slot the probe reaches.
     */
    method Set(key: string, val: V)
      requires Valid()
      modifies this, items
      ensures Valid()
      ensures Model() == HashTable.Set(old(Model()), key, val)
      ensures Contents(Model().slots) == old(Contents(Model().slots))[key := val]
      ensures stored == old(stored) + (if key in old(Contents(Model().slots)) then 0 else 1)
      ensures items == old(items) || fresh(items)
    {
      CheckCapacity(1);
      ReserveSpec(old(Model()), 1);
      Put(key, val);
      SetAfterReserve(old(Model()), key, val);
      SetSpec(old(Model()), key, val);
    }

    /** The write half of hashmap_set (json.c:99-111), on a map that already has room for one more entry. */
    method Put(key: string, val: V)
      requires Valid() && stored + tombstones + 2 <= canStore
      modifies this, items
      ensures Valid()
      ensures Model() == HashTable.Set(old(Model()), key, val)
      ensures items == old(items)
    {
      SetSpec(Model(), key, val);
      RoomHasEmpty(items[..]);
      var index := LocateIn(items, key);
      if items[index].Occupied? && items[index].key == key {
        items[index] := Occupied(key, val);
      } else {
        items[index] := Occupied(key, val);
        stored := stored + 1;
      }
    }

    /** hashmap_remove (json.c:143-160): the slot holding `key` becomes a tombstone. */
    method Remove(key: string)
      requires Valid() && items.Length >= 1
      modifies this, items
      ensures Valid()
      ensures Model() == HashTable.Remove(old(Model()), key)
      ensures Contents(Model().slots) == old(Contents(Model().slots)) - {key}
      ensures stored == old(stored) - (if key in old(Contents(Model().slots)) then 1 else 0)
      ensures items == old(items)
    {
      RoomHasEmpty(items[..]);
      var index := LocateIn(items, key);
      if items[index].Occupied? && items[index].key == key {
        CountReplace(items[..], index, Tombstone);
        items[index] := Tombstone;
        stored := stored - 1;
        tombstones := tombstones + 1;
      }
      RemoveSpec(old(Model()), key);
    }
  }
}
