/**
 * JSON values (struct json of json.h:39-45) and the read-only accessors of
 * json.c:613-635.
 */
module Json {
  import opened HashTable

  /**
   * One constructor per tag of json_t (json.h:20-28), in the same order;
   * json_dict_item is never produced by the parser. An array keeps its
   * allocated `capacity` (data_list_capacity); an object is the hash map
   * holding its members; a number keeps the token that sscanf would convert.
   */
  datatype Value =
    | Bool(b: bool)
    | String(text: string)
    | Array(items: seq<Value>, capacity: nat)
    | Dict(table: Table<Value>)
    | Number(token: string)
    | Null

  /** The shape every parsed value has: arrays within capacity, objects satisfying the map invariant, all the way down. */
  ghost predicate WellFormed(v: Value)
    decreases v
  {
    match v
    case Array(items, capacity) =>
      && |items| <= capacity
      && forall k :: 0 <= k < |items| ==> WellFormed(items[k])
    case Dict(t) =>
      && Inv(t)
      && |t.slots| >= 1
      && forall j :: 0 <= j < |t.slots| && t.slots[j].Occupied? ==> WellFormed(t.slots[j].val)
    case _ => true
  }

  /** json_get_array_item (json.c:613-619): nothing past the last element, otherwise the element at `idx`. */
  function GetArrayItem(arr: Value, idx: int): (r: Option<Value>)
    requires arr.Array? && 0 <= idx
    ensures r.None? <==> idx >= |arr.items|
    ensures r.Some? ==> r.value == arr.items[idx]
  {
    if idx >= |arr.items| then None else Some(arr.items[idx])
  }

  /** json_get_dict_item (json.c:621-625): the member stored under `key`, if any. */
  function GetDictItem(dict: Value, key: string): (r: Option<Value>)
    requires dict.Dict? && Inv(dict.table) && |dict.table.slots| >= 1
    ensures r == if key in Contents(dict.table.slots) then Some(Contents(dict.table.slots)[key]) else None
  {
    GetSpec(dict.table, key);
    Get(dict.table, key)
  }

  /**
   * json_get_size (json.c:627-630): n_data_items, which is the element count
   * of an array, the number of distinct keys of an object and 0 otherwise.
   */
  function GetSize(v: Value): (n: nat)
    ensures v.Array? ==> forall k: nat :: GetArrayItem(v, k).Some? <==> k < n
    ensures v.Dict? && Inv(v.table) ==> n == |Contents(v.table.slots)|
    ensures !v.Array? && !v.Dict? ==> n == 0
  {
    match v
    case Array(items, _) => |items|
    case Dict(t) => StoredIsSize(t); t.stored
    case _ => 0
  }

  /** json_get_capacity (json.c:632-635): data_list_capacity, the allocated element slots of an array or the slot count of an object. */
  function GetCapacity(v: Value): (n: nat)
    ensures WellFormed(v) ==> GetSize(v) <= n
    ensures WellFormed(v) && v.Dict? ==> GetSize(v) < n
  {
    match v
    case Array(_, capacity) => capacity
    case Dict(t) => |t.slots|
    case _ => 0
  }
}
