# A verified model of prismz/json's `json.c`

This project models, in Dafny, the core of a small C JSON library. It has three parts:

- **An open-addressing hash map with string keys** (`json.c:38-160`). It backs JSON objects. It keeps an `items` slot array, a `stored` count and a `can_store` capacity. Keys are hashed with 64-bit FNV-1a, and the probe starts at `hash & (can_store - 1)` and steps forward with wrap-around.
- **A recursive-descent parser** (`json.c:256-611`). Every `json_parse_*` function takes the text, skips leading whitespace, and reports how many characters it consumed. String and number tokens go into growable character buffers. Array elements go into a growable pointer buffer. Object members go into a hash map.
- **The accessors** `json_get_array_item`, `json_get_dict_item`, `json_get_size` and `json_get_capacity` (`json.c:613-635`).

## Layout

| file | module | what it holds |
|---|---|---|
| `fnv.dfy` | `Fnv` | `hashmap_hash_func` as a fold over the key, and the loop that computes it |
| `hashtable.dfy` | `HashTable` | the map as a value: slots, `stored`, tombstones. Also the functions that set, index, remove and grow, the invariant `Inv`, the abstraction `Contents` (a `map<string, V>`), and the lemmas about all of these |
| `hashmap.dfy` | `HashMaps` | the class `HashMap` over an `array<Slot<V>>` with the fields `stored` and `canStore`. Each method is proved to leave exactly the state that the `HashTable` function computes |
| `json.dfy` | `Json` | the value tree, whose constructors follow the tags of `json_t` in `json.h:20-28`, and the accessors |
| `grammar.dfy` | `Grammar` | what each parser computes, as functions over `seq<char>`: a value and the position just past what it consumed |
| `parser.dfy` | `Parser` | the parsers as the source writes them: index loops, buffers grown by reallocation, and a `HashMap` filled in place. Each method is proved equal to its `Grammar` function |
| `properties.dfy` | `Properties` | last-write-wins for duplicate object keys, the round trips of a string token and of an object member, empty containers, and the cases in `tests/tests.c` |

## Conventions and deliberate deviations

- **Positions.** A parser is given the input `s` and a position `i`. The C function sees `str = s + i`. The parser returns the position just past what it consumed, so the C count `*idx` is that position minus `i`. The count always includes the whitespace the parser skipped first. `json_parse_item` instead reports its count relative to `str + start`, which drops that whitespace (`json.c:607-608`). Every caller in the source calls it at a non-space position, so the two agree there.
- **Creating a map** always succeeds. The NULL test at `json.c:47` is inverted, so the source returns NULL exactly when allocation succeeds.
- **Growth rehashes.** `check_hashmap_capacity` grows the table to the source's own size, `can_store + max(n + 8, 32)` (`json.c:72-73`). It then re-inserts every entry at the slot its probe reaches in the new table. The source copies each entry to the same index (`json.c:78-82`), which strands keys whose home slot changes.
  - The source's sizes are not powers of two. Kept as they are, the mask `hash & (can_store - 1)` still gives an index below `can_store`, so every probe stays in range and the model stays correct. Some slots are then never a home slot.
  - A design that rounds the size up to a power of two would index differently. The model keeps the code's sizes instead.
- **Removal leaves a tombstone.** `hashmap_remove` writes a tombstone instead of NULL (`json.c:151`). Probes pass over tombstones, so keys further along a probe chain stay reachable. The growth test counts tombstones as used slots, and growing drops them.
- **An empty object or array consumes its closing bracket.** After the opening bracket the model skips whitespace, and a closing bracket there ends the container and is consumed. So `{   }` and `[   ]` are empty, and the count ends just past the bracket, as `tests/tests.c` expects. The source differs here:
  - The object loop tests only the character right after `{` (`json.c:315-319`). When that is `}`, the loop breaks without consuming it, so the count of `{}` is 1 (`json.c:352`). When it is whitespace, the loop parses a member at the `}`.
  - Because of this, a nested `{}` in the source leaves its `}` to the enclosing object. The enclosing separator loop then takes that brace as its own end (`json.c:327-333`). For `{"a":{},"b":1}` the source reads one member with a count of 7; the model reads two members with a count of 14.
  - The array parser already skips whitespace after `[` (`json.c:429-434`). It then always parses an element (`json.c:443-447`); the model instead ends the array at a `]` there.
  - After the first member, the object loop is modelled as written. Its `}` test looks at `current_idx + 1` (`json.c:318`, `340`).
- **Errors instead of undefined behaviour.** A `Result` replaces these failure modes in the source:
  - the uninitialised result of `json_parse_item` when no value starts at the position (`json.c:583`, `596-605`);
  - counts that run past the end of the input: an unterminated string, fewer than 5 characters for a non-`true` boolean or 4 for `null`, and an object or array parser given only whitespace.
- **Escapes are not decoded.** A backslash is dropped and makes the next character literal (`json.c:386-403`). As written, a backslash after a backslash is not copied either: it only keeps the escape going.
- **Leading whitespace in a string is skipped.** `json_parse_string` skips whitespace and quote characters before the body (`json.c:373-376`), so leading whitespace inside a string is lost.

## Model

| member | source | states |
|---|---|---|
| `Fnv.HashFunc` | json.c:115-123 | the loop returns the FNV-1a fold of the key's bytes from the offset basis |
| `Fnv.HashRounds` | json.c:117-121 | the empty key hashes to the offset basis 14695981039346656037; one more byte XORs into the hash, which is then multiplied by 1099511628211 modulo 2^64 |
| `HashTable.Home` | json.c:94-95 | the first probed slot, `hash & (can_store - 1)`, is below `can_store` |
| `HashTable.Next` | json.c:105-107 | stepping with wrap-around keeps the index in `[0, can_store)` |
| `HashMaps.LocateIn` | json.c:97-108 | with an empty slot present, the probe loop terminates at the slot where the probe for the key stops |
| `HashTable.LocateResult` | json.c:130-140 | on a valid table the probe ends at the key's slot when the key is present (with its value) and at an empty slot otherwise |
| `HashMaps.HashMap.constructor` | json.c:38-53 | a new map has `capacity` empty slots, nothing stored, and satisfies the invariant |
| `HashTable.NewSpec` | json.c:44-46 | a new table is valid, empty and has the requested slot count |
| `HashMaps.Rehash` | json.c:74-82 | the copy loop leaves the new array holding every entry re-inserted into `size` empty slots |
| `HashTable.RebuildSpec` | json.c:78-82 | re-inserting distinct keys into a larger empty table gives a valid table with the same map, the same count and no tombstones |
| `HashMaps.HashMap.CheckCapacity` | json.c:67-89 | grows exactly when `stored + tombstones + n + 1` exceeds `can_store` (the source's `stored + n + 1 > can_store` with tombstones counted); keeps the invariant, the map's contents and `stored`, and leaves room for `n` more entries |
| `HashTable.ReserveSpec` | json.c:67-73 | after the capacity check the map and `stored` are unchanged and at least `n + 1` slots are free, so an empty slot always remains |
| `HashMaps.HashMap.Set` | json.c:91-112 | the object's new state is `HashTable.Set` of the old one; the invariant holds, the contents are the old contents with `key` mapped to `val`, and `stored` grows by one exactly when `key` was absent |
| `HashMaps.HashMap.Put` | json.c:99-111 | on a map with room, writing the key's probe slot gives `HashTable.Set` of the old state and keeps the invariant |
| `HashTable.SetSpec` | json.c:91-112 | set is an upsert: the map gains or updates the key, and `stored` rises by one exactly when the key was new |
| `HashTable.GetAfterSet` | json.c:91-141 | after `set(k, v)`, indexing `k` gives `v` and indexing any other key gives what it gave before |
| `HashMaps.HashMap.Index` | json.c:125-141 | the lookup returns `Get` of the map's state |
| `HashTable.GetSpec` | json.c:125-141 | lookup returns the abstract map's value for a present key and nothing for an absent one |
| `HashMaps.HashMap.Remove` | json.c:143-160 | the object's new state is `HashTable.Remove` of the old one; the invariant holds, the contents lose `key`, and `stored` drops by one exactly when `key` was present |
| `HashTable.RemoveSpec` | json.c:143-160 | remove deletes the key from the map, keeps the invariant, and lowers `stored` by one exactly when the key was present |
| `HashTable.GetAfterRemove` | json.c:143-160 | after `remove(k)`, indexing `k` gives nothing and every other key's lookup is unchanged |
| `HashTable.StoredIsSize` | json.c:99-111 | `stored` is the number of distinct keys in the map |
| `Grammar.Span` | json.c:260-263 | a skip loop stops at the first character failing its test, or at the end |
| `Grammar.SpanOver` | json.c:260-263 | a run of characters passing the test, followed by the end or by a failing character, is exactly what the skip loop covers |
| `Parser.Scan` | json.c:260-263 | the skip loop computes `Span` |
| `Grammar.ParseString` | json.c:357-415 | a string token gives a `String` and a count inside the input, and consumes at least one character when any is left |
| `Grammar.BodyEnd` | json.c:384-393 | the body loop stops only at a closing quote within the input |
| `Parser.ParseString` | json.c:357-415 | the buffer loop keeps `buffer_i + 1 <= size` with a terminator after the copied characters, and computes `Grammar.ParseString` |
| `Parser.PutChar` | json.c:394-400 | a buffer with fewer than two free entries grows by the step; the character lands after the copied ones, followed by a terminator |
| `Grammar.ParseNumber` | json.c:481-520 | the token is the longest run of digits, `.` and `e` after whitespace, and the count ends just after it |
| `Parser.ParseNumber` | json.c:495-511 | the token loop copies exactly the run into a buffer grown by 4, and computes `Grammar.ParseNumber` |
| `Grammar.ParseBool` | json.c:522-550 | after whitespace, `true` consumes 4 characters and anything else gives `false` and consumes 5; too short an input is an error |
| `Parser.ParseBool` | json.c:522-550 | computes `Grammar.ParseBool` |
| `Grammar.ParseNull` | json.c:552-569 | after whitespace, null consumes 4 characters; too short an input is an error |
| `Parser.ParseNull` | json.c:552-569 | computes `Grammar.ParseNull` |
| `Grammar.ParseItem` | json.c:571-611 | dispatch on the first non-space character: `{` gives an object, `[` an array, `"` a string, `n` null, a digit a number, `t`/`f` a boolean; any other character or the end of input is an error; results are well formed and consume at least one character |
| `Parser.ParseItem` | json.c:571-611 | computes `Grammar.ParseItem` |
| `Grammar.ParseDictTuple` | json.c:256-297 | a member parse gives a well-formed value, and its count moves past the position and stays within the input; what the member holds is stated by `Properties.MemberAt` and `Properties.DictTupleRoundTrip` |
| `Parser.ParseDictTuple` | json.c:256-297 | computes `Grammar.ParseDictTuple` |
| `Grammar.ParseDict` | json.c:299-355 | an object parse gives a well-formed object and consumes at least the brace |
| `Grammar.Members` | json.c:316-346 | the member loop keeps the members already read in front, in order, adds at least one, and moves forward; that the next member is the one `ParseDictTuple` reads at `pos` is stated by `Grammar.MembersUnfold` |
| `Grammar.MembersUnfold` | json.c:321-345 | once `ParseDictTuple` reads a member at `pos` and whitespace and commas are skipped, the loop ends after a `}` (consuming it), ends before a `}` or the input's last character, or continues from the separator; in every case that member is appended to the list |
| `Grammar.FromMembersWellFormed` | json.c:311-342 | the map filled by `hashmap_set` from a fresh 16-slot map satisfies the map invariant and holds only well-formed values |
| `Parser.MemberStep` | json.c:321-345 | one pass sets the member in the map and either ends the object or continues from a later position, matching `Grammar.Members` |
| `Parser.ReadMembers` | json.c:316-346 | the member loop leaves the map holding exactly the members `Grammar.Members` reads, and returns its end position |
| `Parser.ParseDict` | json.c:299-355 | computes `Grammar.ParseDict` with a `HashMap` filled in place |
| `Grammar.ParseArray` | json.c:417-479 | an array parse gives a well-formed array and consumes at least the bracket |
| `Grammar.Capacity` | json.c:437 | the element buffer's capacity is a multiple of 4, at least the element count and, for a non-empty buffer, less than 4 above it |
| `Grammar.Grow` | json.c:456-459 | growing by 4 when full keeps the capacity equal to `Capacity` of the count |
| `Grammar.Elements` | json.c:444-469 | the element loop keeps earlier elements in front, in input order; the next element is the item parsed at the position; the count stays within the capacity |
| `Parser.Realloc` | json.c:457-458 | reallocation gives a larger buffer that starts with the old contents |
| `Parser.Push` | json.c:456-461 | appending grows a full buffer by 4, keeps the existing elements and places the new one after them |
| `Parser.ElementStep` | json.c:445-468 | one pass of the element loop appends the element and either finishes the array or continues from a later position, matching `Grammar.Elements` |
| `Parser.ParseArray` | json.c:417-479 | computes `Grammar.ParseArray` with an array buffer grown in place |
| `Json.GetArrayItem` | json.c:613-619 | nothing for `idx >= size`, and otherwise the element at `idx` |
| `Json.GetDictItem` | json.c:621-625 | the value stored under the key in the object's map, or nothing |
| `Json.GetSize` | json.c:627-630 | an array's size is its element count; an object's size is its number of distinct keys |
| `Json.GetCapacity` | json.c:632-635 | the capacity is at least the size, and above it for an object |
| `Properties.FromMembersContents` | json.c:311-342 | the object's map holds exactly the parsed members, a later member replacing an earlier one with the same key |
| `Properties.DictItemIsLastMember` | json.c:342 | a duplicate key is last-write-wins: the object gives the value of the last member with that key, and nothing for a key no member has |
| `Properties.DictSizeIsDistinctKeys` | json.c:342-348 | the object's size `n_data_items = stored` is the number of distinct member keys |
| `Properties.BodyOfQuoted` | json.c:384-404 | the body loop reads back a text whose quotes are escaped, up to the closing quote that follows it |
| `Properties.BodyAfterQuote` | json.c:373-412 | after an opening quote, a body starting with neither whitespace nor a quote is the token's text, and the count ends just past the closing quote |
| `Properties.StringRoundTrip` | json.c:357-415 | wherever the input holds a backslash-free text that does not start with whitespace, its quotes escaped and placed between quotes, the token parses back to that text; the count ends just past the closing quote |
| `Properties.EmptyStringToken` | json.c:364-370 | `""` is the empty string with a count of 2 |
| `Properties.EscapedQuoteIsKept` | json.c:386-392 | an escaped quote is copied and does not end the string |
| `Properties.EscapedBackslashIsDropped` | json.c:386-389 | a backslash after a backslash is not copied and keeps the escape going |
| `Properties.StringEndsAtQuote` | json.c:406-410 | when the token has a body, the count ends just past the closing quote |
| `Properties.MemberAt` | json.c:260-297 | a member whose key token starts at the position, followed by a run of whitespace and colons, is that key paired with the value and count `json_parse_item` gives where the run ends; an error there is the member's error |
| `Properties.DictTupleRoundTrip` | json.c:260-297 | a quoted backslash-free key, then a run of whitespace and colons, then a value reads back as exactly that key with the value and count read where the run ends; an error there is the member's error |
| `Properties.EmptyObject` | json.c:299-355 | braces holding only whitespace give an object of size 0, and the count ends just past the `}`, whatever follows; this is the deliberate deviation for empty objects described above |
| `Properties.EmptyArray` | json.c:417-479 | brackets holding only whitespace give an array of size 0, and the count ends just past the `]`, whatever follows; this is the deliberate deviation for empty arrays described above |
| `Properties.EmptyObjectLeavesGarbage` | tests/tests.c:7-27 | `{   } extra garbage` is an object of size 0, and the count leaves exactly ` extra garbage` |
| `Properties.EmptyObjectIsWholeInput` | tests/tests.c:29-46 | `{   }` is an object of size 0, and the count is the whole input |
| `Properties.EmptyArrayLeavesExtra` | tests/tests.c:48-75 | `[   ] extra` is an array of size 0, and the count leaves exactly ` extra` |

## Left out

- `json_read_file`, `main`, `print_json` and `json_error` (`json.c:164-179`, `217-254`, `637-672`): file I/O, printing, stderr and process exit.
- `free_item`, `free_hashmap` and `free_json_item`: manual memory release, which has no counterpart under garbage collection.
- `new_item` and its free callbacks (`json.c:10-23`): an item is the plain `(key, value)` pair passed to `HashMap.Set`. `new_json` (`json.c:181-190`) is the constructor `Null`.
- Allocation failure of `calloc`, `malloc` and `realloc`: allocation always succeeds in the model.
- `sscanf` (`json.c:513`): a number keeps its token text, not a double.
- Characters are bytes. `Fnv.Byte` keeps the low 8 bits as the `(unsigned char)` cast does, and `|s|` plays the part of `strlen`. NUL characters inside the text are not treated specially.
- The C `int` counts and `n_data_items` are unbounded naturals; their overflow is not modelled.
- Locale: `isspace` is the C-locale set (space, `\t`, `\n`, `\v`, `\f`, `\r`), and `isdigit` is `0`-`9`.
- Full RFC 8259 string escapes, `-`, exponent signs, exact `true`/`false`/`null` matching, nesting limits and distinct error kinds for bad escapes, malformed numbers and excess nesting are not implemented by `json.c`, so the model does not have them either.
- `Grammar.Elements`: when the input ends right after the separators that follow the last element, the source reports a count of `len + 1`, one past its input (`json.c:463-469`); the model reports the input length.
- `Grammar.ParseString`, `Grammar.ParseBool`, `Grammar.ParseNull`, `Grammar.ParseDict`, `Grammar.ParseArray`: where the source's count would run past the end of its input, the model returns an error instead of that count.
- `Grammar.ParseDict`: for `{}` the source's count stops before the `}` (`json.c:315`, `318-319`, `352`). The model consumes it, as `tests/tests.c:7-27` expects of `{   }`. So the model does not reproduce the source closing an enclosing object early at a nested `{}`.
- `Grammar.ParseDict`: a `{` followed only by whitespace is an empty object whose count is the input length. The source parses a member there (`json.c:322`) and reaches the uninitialised result of `json_parse_item` (`json.c:266`, `279`, `583-605`).
- `Grammar.ParseString`: when only whitespace and quotes remain, the model gives the empty string with the count at the end of the input. The source returns its buffer without writing a terminator (`json.c:378-380`, `412`), so its text is undefined.
- `Json.GetArrayItem` requires `0 <= idx`. A negative `int idx` passes the source's `idx >= n_data_items` test (`json.c:615`) and reads before the array (`json.c:618`); the model leaves that read out.
- `HashMaps.HashMap.Index` and `HashMaps.HashMap.Remove` require at least one slot; with none, the source indexes `items[SIZE_MAX & hash]`.
- Iteration order over the map is not modelled; only `print_json` walks the slots.
