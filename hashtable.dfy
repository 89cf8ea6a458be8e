/**
 * The open-addressing, string-keyed table behind JSON objects (json.c:38-160),
 * as a value: the slot array, the `stored` count and a count of tombstones.
 * The class in hashmap.dfy keeps the same state in an array and is proved to
 * compute exactly the functions below; the lemmas here say what they mean.
 */
module HashTable {
  import Fnv

  datatype Option<T> = None | Some(value: T)

  /** A slot of the `items` array: never used, deleted, or holding a key and its value. */
  datatype Slot<V> = Empty | Tombstone | Occupied(key: string, val: V)

  /** The state of a map: `items` (whose length is `can_store`), `stored`, and the tombstones left by deletions. */
  datatype Table<V> = Table(slots: seq<Slot<V>>, stored: nat, tombstones: nat)

  /** 2^64: `size_t` and `uint64_t` arithmetic wraps modulo this. */
  const WordSize: nat := 0x1_0000_0000_0000_0000

  // ---------------------------------------------------------------- indexing

  /** Bitwise AND of two naturals. */
  function BitAnd(x: nat, y: nat): (r: nat)
    ensures r <= y
  {
    if x == 0 || y == 0 then 0
    else 2 * BitAnd(x / 2, y / 2) + (if x % 2 == 1 && y % 2 == 1 then 1 else 0)
  }

  /** The first slot probed for `key`: `hash & (can_store - 1)`, with `can_store - 1` taken as a size_t (json.c:94-95). */
  function Home(key: string, n: nat): (i: nat)
    requires n >= 1
    ensures i < n
  {
    BitAnd(Fnv.Hash(key) as int, (n - 1) % WordSize)
  }

  /** The slot probed after `i`: `index++`, back to 0 at the end (json.c:105-107). */
  function Next(i: nat, n: nat): (j: nat)
    requires i < n
    ensures j < n
  {
    if i + 1 >= n then 0 else i + 1
  }

  /** Slot j is visited by a walk that starts at `from` and stops before reaching `to`. */
  predicate OnPath(from: nat, to: nat, j: nat)
  {
    if from <= to then from <= j < to else from <= j || j < to
  }

  /** Number of steps from `from` to `to` going forward with wrap-around. */
  function Dist(from: nat, to: nat, n: nat): nat
    requires from < n && to < n
  {
    if from <= to then to - from else to + n - from
  }

  /** The probe loops stop at an empty slot or at the slot holding the key (json.c:98-99, 130-131, 148-149). */
  predicate IsStop<V>(s: Slot<V>, key: string)
  {
    s.Empty? || (s.Occupied? && s.key == key)
  }

  /** Walk forward from `i` until a stop, trying at most `fuel` more slots. */
  function Probe<V>(a: seq<Slot<V>>, key: string, i: nat, fuel: nat): (p: nat)
    requires i < |a|
    ensures p < |a|
    decreases fuel
  {
    if fuel == 0 || IsStop(a[i], key) then i
    else Probe(a, key, Next(i, |a|), fuel - 1)
  }

  /** The slot where the probe for `key` ends. */
  function Locate<V>(a: seq<Slot<V>>, key: string): (p: nat)
    requires |a| >= 1
    ensures p < |a|
  {
    Probe(a, key, Home(key, |a|), |a|)
  }

  // ---------------------------------------------------------------- operations

  /** The size the capacity check grows to: `can_store` plus the larger of n + 8 and 32 (json.c:72-73). */
  function GrowTo(canStore: nat, n: nat): (size: nat)
    ensures size >= canStore + n + 8 && size >= canStore + 32
  {
    canStore + (if n + 8 > 32 then n + 8 else 32)
  }

  /** new_hashmap: `capacity` empty slots, nothing stored (json.c:44-46). */
  function New<V>(capacity: nat): Table<V>
  {
    Table(seq(capacity, _ => Empty), 0, 0)
  }

  /** Insert `x` where the probe for its key ends; used to refill a grown table. */
  function Place<V>(a: seq<Slot<V>>, x: Slot<V>): (r: seq<Slot<V>>)
    requires |a| >= 1
    ensures |r| == |a|
  {
    if x.Occupied? then a[Locate(a, x.key) := x] else a
  }

  /** The slots `s`, in index order, re-inserted into `acc`. */
  function Rebuild<V>(acc: seq<Slot<V>>, s: seq<Slot<V>>): (r: seq<Slot<V>>)
    requires |acc| >= 1
    ensures |r| == |acc|
  {
    if s == [] then acc else Place(Rebuild(acc, s[..|s| - 1]), s[|s| - 1])
  }

  /** check_hashmap_capacity(map, n): grow when fewer than n + 1 free slots would remain (json.c:67-89). */
  function Reserve<V>(t: Table<V>, n: nat): (r: Table<V>)
    ensures |r.slots| >= 1
  {
    if t.stored + t.tombstones + n + 1 > |t.slots| then
      var size := GrowTo(|t.slots|, n);
      Table(Rebuild(seq(size, _ => Empty), t.slots), t.stored, 0)
    else t
  }

  /** hashmap_set: check capacity, probe, then overwrite the key's slot or fill the empty slot (json.c:91-112). */
  function Set<V>(t: Table<V>, key: string, val: V): Table<V>
  {
    var r := Reserve(t, 1);
    var p := Locate(r.slots, key);
    if r.slots[p].Occupied? && r.slots[p].key == key then
      Table(r.slots[p := Occupied(key, val)], r.stored, r.tombstones)
    else
      Table(r.slots[p := Occupied(key, val)], r.stored + 1, r.tombstones)
  }

  /** hashmap_index: the value in the slot where the probe ends, if that slot holds the key (json.c:125-141); a map without slots cannot be indexed. */
  function Get<V>(t: Table<V>, key: string): Option<V>
    requires |t.slots| >= 1
  {
    var p := Locate(t.slots, key);
    if t.slots[p].Occupied? && t.slots[p].key == key then Some(t.slots[p].val) else None
  }

  /** hashmap_remove: the key's slot becomes a tombstone and `stored` drops (json.c:143-160). */
  function Remove<V>(t: Table<V>, key: string): Table<V>
    requires Inv(t) && |t.slots| >= 1
  {
    var p := Locate(t.slots, key);
    if t.slots[p].Occupied? && t.slots[p].key == key then
      CountReplace(t.slots, p, Tombstone);
      Table(t.slots[p := Tombstone], t.stored - 1, t.tombstones + 1)
    else t
  }

  // ---------------------------------------------------------------- invariant

  /** There is an empty slot, so every probe loop terminates. */
  ghost predicate HasEmpty<V>(a: seq<Slot<V>>)
  {
    exists e :: 0 <= e < |a| && a[e].Empty?
  }

  /** No slot on the walk from `from` up to (not including) `to` is empty. */
  ghost predicate NoEmptyOnPath<V>(a: seq<Slot<V>>, from: nat, to: nat)
  {
    forall j :: 0 <= j < |a| && OnPath(from, to, j) ==> !a[j].Empty?
  }

  /** At most one slot per key. */
  ghost predicate UniqueKeys<V>(a: seq<Slot<V>>)
  {
    forall i, j :: 0 <= i < |a| && 0 <= j < |a| && a[i].Occupied? && a[j].Occupied? && a[i].key == a[j].key ==> i == j
  }

  /** Every key can be found: no empty slot between its home slot and the slot holding it. */
  ghost predicate Reachable<V>(a: seq<Slot<V>>)
  {
    forall j :: 0 <= j < |a| && a[j].Occupied? ==> NoEmptyOnPath(a, Home(a[j].key, |a|), j)
  }

  ghost predicate Wellformed<V>(a: seq<Slot<V>>)
  {
    |a| >= 1 && UniqueKeys(a) && Reachable(a)
  }

  ghost function CountOccupied<V>(a: seq<Slot<V>>): nat
  {
    if a == [] then 0 else CountOccupied(a[..|a| - 1]) + (if a[|a| - 1].Occupied? then 1 else 0)
  }

  ghost function CountTombstones<V>(a: seq<Slot<V>>): nat
  {
    if a == [] then 0 else CountTombstones(a[..|a| - 1]) + (if a[|a| - 1].Tombstone? then 1 else 0)
  }

  /**
   * The map invariant: a map without slots holds nothing; otherwise keys are
   * unique and reachable, `stored` counts the occupied slots, and at least one
   * slot is empty.
   */
  ghost predicate Inv<V>(t: Table<V>)
  {
    if |t.slots| == 0 then t.stored == 0 && t.tombstones == 0
    else
      && Wellformed(t.slots)
      && t.stored == CountOccupied(t.slots)
      && t.tombstones == CountTombstones(t.slots)
      && t.stored + t.tombstones < |t.slots|
  }

  /** The abstract map held by a slot array. */
  ghost function Contents<V>(a: seq<Slot<V>>): map<string, V>
  {
    if a == [] then map[]
    else
      var m := Contents(a[..|a| - 1]);
      if a[|a| - 1].Occupied? then m[a[|a| - 1].key := a[|a| - 1].val] else m
  }

  /** The map after slot `p` changes from `was` to `now`. */
  ghost function Adjust<V>(m: map<string, V>, was: Slot<V>, now: Slot<V>): map<string, V>
  {
    var m1 := if was.Occupied? then m - {was.key} else m;
    if now.Occupied? then m1[now.key := now.val] else m1
  }

  // ---------------------------------------------------------------- walking

  lemma PathStep(i: nat, p: nat, n: nat)
    requires i < n && p < n && i != p
    ensures forall j :: 0 <= j < n ==> (OnPath(i, p, j) <==> (j == i || OnPath(Next(i, n), p, j)))
  {
  }

  lemma PathSplit(h: nat, p: nat, j: nat, n: nat)
    requires h < n && p < n && j < n
    ensures p == j || OnPath(h, p, j) || OnPath(h, j, p)
  {
  }

  /** With an empty slot within reach, the probe ends at a stop and passes only non-stops. */
  lemma {:induction false} ProbeStops<V>(a: seq<Slot<V>>, key: string, i: nat, fuel: nat, e: nat)
    requires i < |a| && e < |a| && a[e].Empty?
    requires Dist(i, e, |a|) < fuel
    ensures IsStop(a[Probe(a, key, i, fuel)], key)
    ensures forall j :: 0 <= j < |a| && OnPath(i, Probe(a, key, i, fuel), j) ==> !IsStop(a[j], key)
    decreases fuel
  {
    if !IsStop(a[i], key) {
      var n := |a|;
      assert i != e;
      assert Dist(Next(i, n), e, n) == Dist(i, e, n) - 1;
      ProbeStops(a, key, Next(i, n), fuel - 1, e);
      var p := Probe(a, key, Next(i, n), fuel - 1);
      assert Probe(a, key, i, fuel) == p;
      assert p != i;
      PathStep(i, p, n);
    }
  }

  // ---------------------------------------------------------------- counting

  lemma {:induction false} CountReplace<V>(a: seq<Slot<V>>, p: nat, x: Slot<V>)
    requires p < |a|
    ensures CountOccupied(a[p := x]) == CountOccupied(a) - (if a[p].Occupied? then 1 else 0) + (if x.Occupied? then 1 else 0)
    ensures CountTombstones(a[p := x]) == CountTombstones(a) - (if a[p].Tombstone? then 1 else 0) + (if x.Tombstone? then 1 else 0)
    decreases |a|
  {
    var n := |a|;
    if p == n - 1 {
      assert a[p := x][..n - 1] == a[..n - 1];
    } else {
      assert a[p := x][..n - 1] == a[..n - 1][p := x];
      CountReplace(a[..n - 1], p, x);
    }
  }

  lemma {:induction false} CountPrefix<V>(a: seq<Slot<V>>, i: nat)
    requires i <= |a|
    ensures CountOccupied(a[..i]) <= CountOccupied(a)
    ensures i < |a| && a[i].Occupied? ==> CountOccupied(a[..i]) + 1 <= CountOccupied(a)
    decreases |a|
  {
    var n := |a|;
    if i < n {
      assert a[..n - 1][..i] == a[..i];
      CountPrefix(a[..n - 1], i);
      if i < n - 1 {
        assert a[..n - 1][i] == a[i];
      } else {
        assert a[..n - 1] == a[..i];
      }
    } else {
      assert a[..i] == a;
    }
  }

  /** Fewer used slots than slots means an empty slot exists. */
  lemma {:induction false} RoomHasEmpty<V>(a: seq<Slot<V>>)
    requires CountOccupied(a) + CountTombstones(a) < |a|
    ensures HasEmpty(a)
    decreases |a|
  {
    var n := |a|;
    if !a[n - 1].Empty? {
      RoomHasEmpty(a[..n - 1]);
      var e :| 0 <= e < n - 1 && a[..n - 1][e].Empty?;
      assert a[e].Empty?;
    }
  }

  lemma {:induction false} EmptySlots<V>(n: nat)
    ensures CountOccupied(seq<Slot<V>>(n, _ => Empty)) == 0
    ensures CountTombstones(seq<Slot<V>>(n, _ => Empty)) == 0
    ensures Contents(seq<Slot<V>>(n, _ => Empty)) == map[]
    decreases n
  {
    if n > 0 {
      assert seq<Slot<V>>(n, _ => Empty)[..n - 1] == seq<Slot<V>>(n - 1, _ => Empty);
      EmptySlots<V>(n - 1);
    }
  }

  // ---------------------------------------------------------------- contents

  lemma UniquePrefix<V>(a: seq<Slot<V>>, i: nat)
    requires UniqueKeys(a) && i <= |a|
    ensures UniqueKeys(a[..i])
  {
    var b := a[..i];
    forall x, y | 0 <= x < |b| && 0 <= y < |b| && b[x].Occupied? && b[y].Occupied? && b[x].key == b[y].key
      ensures x == y
    {
      assert a[x] == b[x] && a[y] == b[y];
    }
  }

  /** A key is in the abstract map exactly when some slot holds it, and then it maps to that slot's value. */
  lemma {:induction false} ContentsAt<V>(a: seq<Slot<V>>, k: string)
    requires UniqueKeys(a)
    ensures k in Contents(a) <==> exists j :: 0 <= j < |a| && a[j].Occupied? && a[j].key == k
    ensures forall j :: 0 <= j < |a| && a[j].Occupied? && a[j].key == k ==> k in Contents(a) && Contents(a)[k] == a[j].val
    decreases |a|
  {
    if a != [] {
      var n := |a|;
      var b := a[..n - 1];
      UniquePrefix(a, n - 1);
      ContentsAt(b, k);
      forall j | 0 <= j < n - 1
        ensures b[j] == a[j]
      {
      }
      if a[n - 1].Occupied? && a[n - 1].key == k {
        assert Contents(a) == Contents(b)[k := a[n - 1].val];
      } else {
        assert k in Contents(a) <==> k in Contents(b);
        if k in Contents(a) {
          assert Contents(a)[k] == Contents(b)[k];
          var j :| 0 <= j < n - 1 && b[j].Occupied? && b[j].key == k;
          assert a[j].Occupied? && a[j].key == k;
        }
      }
    }
  }

  /** `stored` counts distinct keys: the number of occupied slots is the size of the map. */
  lemma {:induction false} ContentsSize<V>(a: seq<Slot<V>>)
    requires UniqueKeys(a)
    ensures |Contents(a)| == CountOccupied(a)
    decreases |a|
  {
    if a != [] {
      var n := |a|;
      var b := a[..n - 1];
      UniquePrefix(a, n - 1);
      ContentsSize(b);
      if a[n - 1].Occupied? {
        var k := a[n - 1].key;
        forall j | 0 <= j < n - 1 && b[j].Occupied?
          ensures b[j].key != k
        {
          assert a[j] == b[j];
        }
        ContentsAt(b, k);
      }
    }
  }

  /** Changing one slot changes the abstract map by removing the old key and adding the new one. */
  lemma ContentsReplace<V>(a: seq<Slot<V>>, p: nat, x: Slot<V>)
    requires p < |a| && UniqueKeys(a) && UniqueKeys(a[p := x])
    ensures Contents(a[p := x]) == Adjust(Contents(a), a[p], x)
  {
    var b := a[p := x];
    var m := Adjust(Contents(a), a[p], x);
    forall k
      ensures k in Contents(b) <==> k in m
      ensures k in m ==> Contents(b)[k] == m[k]
    {
      ContentsAt(a, k);
      ContentsAt(b, k);
      if x.Occupied? && x.key == k {
        assert b[p].Occupied? && b[p].key == k;
      } else if k in Contents(a) && !(a[p].Occupied? && a[p].key == k) {
        var j :| 0 <= j < |a| && a[j].Occupied? && a[j].key == k;
        assert j != p && a[j] == b[j];
      } else {
        forall j | 0 <= j < |b| && b[j].Occupied?
          ensures b[j].key != k
        {
          if j != p {
            assert a[j] == b[j];
          }
        }
      }
    }
  }

  // ---------------------------------------------------------------- probing

  /** On a well-formed table with an empty slot, the probe for a key ends at its slot if it is present and at an empty slot otherwise. */
  lemma LocateResult<V>(a: seq<Slot<V>>, key: string)
    requires Wellformed(a) && HasEmpty(a)
    ensures IsStop(a[Locate(a, key)], key)
    ensures a[Locate(a, key)].Occupied? <==> key in Contents(a)
    ensures a[Locate(a, key)].Occupied? ==> Contents(a)[key] == a[Locate(a, key)].val
    ensures a[Locate(a, key)].Empty? ==> NoEmptyOnPath(a, Home(key, |a|), Locate(a, key))
  {
    var n := |a|;
    var h := Home(key, n);
    var p := Locate(a, key);
    var e :| 0 <= e < n && a[e].Empty?;
    ProbeStops(a, key, h, n, e);
    ContentsAt(a, key);
    if key in Contents(a) {
      var j :| 0 <= j < n && a[j].Occupied? && a[j].key == key;
      PathSplit(h, p, j, n);
      assert OnPath(h, p, j) ==> !IsStop(a[j], key);
      assert NoEmptyOnPath(a, Home(a[j].key, n), j);
    } else {
      forall j | 0 <= j < n && OnPath(h, p, j)
        ensures !a[j].Empty?
      {
        assert !IsStop(a[j], key);
      }
    }
  }

  /** Filling the empty slot where the probe for a new key ends keeps the table well formed and adds the key. */
  lemma PlaceNew<V>(a: seq<Slot<V>>, k: string, v: V)
    requires Wellformed(a) && HasEmpty(a) && k !in Contents(a)
    ensures a[Locate(a, k)].Empty?
    ensures Wellformed(a[Locate(a, k) := Occupied(k, v)])
    ensures Contents(a[Locate(a, k) := Occupied(k, v)]) == Contents(a)[k := v]
    ensures CountOccupied(a[Locate(a, k) := Occupied(k, v)]) == CountOccupied(a) + 1
    ensures CountTombstones(a[Locate(a, k) := Occupied(k, v)]) == CountTombstones(a)
  {
    var n := |a|;
    var p := Locate(a, k);
    LocateResult(a, k);
    var b := a[p := Occupied(k, v)];
    ContentsAt(a, k);
    assert forall j :: 0 <= j < n && a[j].Occupied? ==> a[j].key != k;
    forall i, j | 0 <= i < n && 0 <= j < n && b[i].Occupied? && b[j].Occupied? && b[i].key == b[j].key
      ensures i == j
    {
      if i != p && j != p {
        assert a[i] == b[i] && a[j] == b[j];
      }
    }
    forall j | 0 <= j < n && b[j].Occupied?
      ensures NoEmptyOnPath(b, Home(b[j].key, n), j)
    {
      if j != p {
        assert NoEmptyOnPath(a, Home(a[j].key, n), j);
      } else {
        assert NoEmptyOnPath(a, Home(k, n), p);
      }
    }
    ContentsReplace(a, p, Occupied(k, v));
    CountReplace(a, p, Occupied(k, v));
  }

  /** Writing a new value into the slot that holds the key keeps the table well formed and updates the key. */
  lemma Overwrite<V>(a: seq<Slot<V>>, k: string, v: V)
    requires Wellformed(a) && HasEmpty(a) && k in Contents(a)
    ensures a[Locate(a, k)].Occupied? && a[Locate(a, k)].key == k
    ensures Wellformed(a[Locate(a, k) := Occupied(k, v)])
    ensures Contents(a[Locate(a, k) := Occupied(k, v)]) == Contents(a)[k := v]
    ensures CountOccupied(a[Locate(a, k) := Occupied(k, v)]) == CountOccupied(a)
    ensures CountTombstones(a[Locate(a, k) := Occupied(k, v)]) == CountTombstones(a)
  {
    var n := |a|;
    var p := Locate(a, k);
    LocateResult(a, k);
    var b := a[p := Occupied(k, v)];
    forall i, j | 0 <= i < n && 0 <= j < n && b[i].Occupied? && b[j].Occupied? && b[i].key == b[j].key
      ensures i == j
    {
      assert a[i].Occupied? && a[j].Occupied? && a[i].key == a[j].key;
    }
    forall j | 0 <= j < n && b[j].Occupied?
      ensures NoEmptyOnPath(b, Home(b[j].key, n), j)
    {
      assert b[j].key == a[j].key;
      assert NoEmptyOnPath(a, Home(a[j].key, n), j);
    }
    ContentsReplace(a, p, Occupied(k, v));
    CountReplace(a, p, Occupied(k, v));
  }

  /** Turning the key's slot into a tombstone keeps every other key reachable and removes the key. */
  lemma Bury<V>(a: seq<Slot<V>>, k: string)
    requires Wellformed(a) && HasEmpty(a) && k in Contents(a)
    ensures a[Locate(a, k)].Occupied? && a[Locate(a, k)].key == k
    ensures Wellformed(a[Locate(a, k) := Tombstone])
    ensures Contents(a[Locate(a, k) := Tombstone]) == Contents(a) - {k}
    ensures CountOccupied(a[Locate(a, k) := Tombstone]) + 1 == CountOccupied(a)
    ensures CountTombstones(a[Locate(a, k) := Tombstone]) == CountTombstones(a) + 1
  {
    var n := |a|;
    var p := Locate(a, k);
    LocateResult(a, k);
    var b := a[p := Tombstone];
    assert forall j :: 0 <= j < n ==> (b[j].Empty? <==> a[j].Empty?);
    forall j | 0 <= j < n && b[j].Occupied?
      ensures NoEmptyOnPath(b, Home(b[j].key, n), j)
    {
      assert NoEmptyOnPath(a, Home(a[j].key, n), j);
    }
    ContentsReplace(a, p, Tombstone);
    CountReplace(a, p, Tombstone);
  }

  // ---------------------------------------------------------------- growth

  /** Re-inserting distinct keys into an empty table of sufficient size gives a well-formed table with the same map and no tombstones. */
  lemma {:induction false} RebuildSpec<V>(acc: seq<Slot<V>>, s: seq<Slot<V>>)
    requires |acc| >= 1 && acc == seq(|acc|, _ => Empty)
    requires UniqueKeys(s) && CountOccupied(s) < |acc|
    ensures Wellformed(Rebuild(acc, s))
    ensures Contents(Rebuild(acc, s)) == Contents(s)
    ensures CountOccupied(Rebuild(acc, s)) == CountOccupied(s)
    ensures CountTombstones(Rebuild(acc, s)) == 0
    decreases |s|
  {
    EmptySlots<V>(|acc|);
    if s == [] {
      assert Wellformed(acc);
    } else {
      var n := |s|;
      var b := s[..n - 1];
      var last := s[n - 1];
      UniquePrefix(s, n - 1);
      CountPrefix(s, n - 1);
      RebuildSpec(acc, b);
      var r := Rebuild(acc, b);
      if last.Occupied? {
        forall j | 0 <= j < n - 1 && b[j].Occupied?
          ensures b[j].key != last.key
        {
          assert s[j] == b[j];
        }
        ContentsAt(b, last.key);
        RoomHasEmpty(r);
        PlaceNew(r, last.key, last.val);
      }
    }
  }

  /** The capacity check keeps the invariant and the map, and leaves room for n more keys. */
  lemma ReserveSpec<V>(t: Table<V>, n: nat)
    requires Inv(t)
    ensures Inv(Reserve(t, n))
    ensures Contents(Reserve(t, n).slots) == Contents(t.slots)
    ensures Reserve(t, n).stored == t.stored
    ensures Reserve(t, n).stored + Reserve(t, n).tombstones + n + 1 <= |Reserve(t, n).slots|
  {
    if t.stored + t.tombstones + n + 1 > |t.slots| {
      var size := GrowTo(|t.slots|, n);
      RebuildSpec(seq(size, _ => Empty), t.slots);
    }
  }

  /** Setting after reserving room is setting: the reserve inside Set finds the room already there. */
  lemma SetAfterReserve<V>(t: Table<V>, key: string, val: V)
    requires Inv(t)
    ensures Set(Reserve(t, 1), key, val) == Set(t, key, val)
  {
    ReserveSpec(t, 1);
  }

  /** Every stored value satisfies P. */
  ghost predicate AllValues<V>(a: seq<Slot<V>>, P: V -> bool)
  {
    forall j :: 0 <= j < |a| && a[j].Occupied? ==> P(a[j].val)
  }

  lemma {:induction false} RebuildValues<V>(acc: seq<Slot<V>>, s: seq<Slot<V>>, P: V -> bool)
    requires |acc| >= 1 && AllValues(acc, P) && AllValues(s, P)
    ensures AllValues(Rebuild(acc, s), P)
    decreases |s|
  {
    if s != [] {
      var n := |s|;
      var b := s[..n - 1];
      assert AllValues(b, P) by {
        forall j | 0 <= j < n - 1 && b[j].Occupied?
          ensures P(b[j].val)
        {
          assert b[j] == s[j];
        }
      }
      RebuildValues(acc, b, P);
    }
  }

  /** Values are only ever moved or written by set: a property of every stored value and of the new value holds of every value afterwards. */
  lemma SetValues<V>(t: Table<V>, k: string, v: V, P: V -> bool)
    requires AllValues(t.slots, P) && P(v)
    ensures AllValues(Set(t, k, v).slots, P)
  {
    if t.stored + t.tombstones + 2 > |t.slots| {
      var size := GrowTo(|t.slots|, 1);
      RebuildValues(seq(size, _ => Empty), t.slots, P);
    }
  }

  // ---------------------------------------------------------------- the operations' meaning

  /** A new map is empty, valid, and has the requested number of slots. */
  lemma NewSpec<V>(capacity: nat)
    ensures Inv(New<V>(capacity))
    ensures Contents(New<V>(capacity).slots) == map[]
    ensures |New<V>(capacity).slots| == capacity
  {
    var t := New<V>(capacity);
    EmptySlots<V>(|t.slots|);
  }

  /** Lookup returns the value the abstract map holds for the key, and nothing for an absent key. */
  lemma GetSpec<V>(t: Table<V>, key: string)
    requires Inv(t) && |t.slots| >= 1
    ensures Get(t, key) == if key in Contents(t.slots) then Some(Contents(t.slots)[key]) else None
  {
    RoomHasEmpty(t.slots);
    LocateResult(t.slots, key);
  }

  /** hashmap_set is an upsert: the map gains or updates the key, and `stored` rises by one exactly for a new key. */
  lemma SetSpec<V>(t: Table<V>, key: string, val: V)
    requires Inv(t)
    ensures Inv(Set(t, key, val))
    ensures Contents(Set(t, key, val).slots) == Contents(t.slots)[key := val]
    ensures Set(t, key, val).stored == t.stored + (if key in Contents(t.slots) then 0 else 1)
  {
    ReserveSpec(t, 1);
    var r := Reserve(t, 1);
    RoomHasEmpty(r.slots);
    if key in Contents(r.slots) {
      Overwrite(r.slots, key, val);
    } else {
      PlaceNew(r.slots, key, val);
    }
  }

  /** hashmap_remove deletes the key, `stored` drops by one exactly when it was present. */
  lemma RemoveSpec<V>(t: Table<V>, key: string)
    requires Inv(t) && |t.slots| >= 1
    ensures Inv(Remove(t, key))
    ensures Contents(Remove(t, key).slots) == Contents(t.slots) - {key}
    ensures Remove(t, key).stored == t.stored - (if key in Contents(t.slots) then 1 else 0)
  {
    RoomHasEmpty(t.slots);
    LocateResult(t.slots, key);
    if key in Contents(t.slots) {
      Bury(t.slots, key);
    } else {
      assert Contents(t.slots) - {key} == Contents(t.slots);
    }
  }

  /** `stored` is the number of distinct keys in the map. */
  lemma StoredIsSize<V>(t: Table<V>)
    ensures Inv(t) ==> t.stored == |Contents(t.slots)|
  {
    if Inv(t) {
      ContentsSize(t.slots);
    }
  }

  /** After set(k, v), lookup of k gives v, and every other key's lookup is unchanged. */
  lemma GetAfterSet<V>(t: Table<V>, k: string, v: V, other: string)
    requires Inv(t)
    ensures Get(Set(t, k, v), k) == Some(v)
    ensures other != k && |t.slots| >= 1 ==> Get(Set(t, k, v), other) == Get(t, other)
  {
    SetSpec(t, k, v);
    GetSpec(Set(t, k, v), k);
    GetSpec(Set(t, k, v), other);
    if |t.slots| >= 1 {
      GetSpec(t, other);
    }
  }

  /** After remove(k), lookup of k gives nothing, and every other key's lookup is unchanged. */
  lemma GetAfterRemove<V>(t: Table<V>, k: string, other: string)
    requires Inv(t) && |t.slots| >= 1
    ensures Get(Remove(t, k), k) == None
    ensures other != k ==> Get(Remove(t, k), other) == Get(t, other)
  {
    RemoveSpec(t, k);
    GetSpec(Remove(t, k), k);
    GetSpec(Remove(t, k), other);
    GetSpec(t, other);
  }
}
