/**
 * The parsers of json.c:256-611 as the source writes them: loops that move
 * indices forward, character buffers and an element buffer that grow by
 * reallocation, and a hash map filled in place. Each method is proved to
 * return exactly what the corresponding function of Grammar computes.
 */
module Parser {
  import opened HashTable
  import opened HashMaps
  import opened Json
  import opened Grammar

  /** A skip loop such as json.c:260-263: advance while the character satisfies p. */
  method Scan(s: string, from: nat, p: char -> bool) returns (j: nat)
    requires from <= |s|
    ensures j == Span(s, from, p)
  {
    j := from;
    while j < |s| && p(s[j])
      invariant from <= j <= |s|
      invariant Span(s, j, p) == Span(s, from, p)
    {
      j := j + 1;
    }
  }

  /** json_realloc: a larger buffer that starts with the old contents. */
  method Realloc<T(0)>(a: array<T>, size: nat) returns (b: array<T>)
    requires a.Length <= size
    ensures fresh(b) && b.Length == size
    ensures b[..a.Length] == a[..]
  {
    b := new T[size];
    var k := 0;
    while k < a.Length
      invariant 0 <= k <= a.Length
      invariant b[..k] == a[..k]
    {
      b[k] := a[k];
      k := k + 1;
    }
  }

  /** The string body still to be read, after the characters already copied. */
  ghost function After(copied: string, rest: Option<(string, nat)>): Option<(string, nat)>
  {
    match rest
    case None => None
    case Some(body) => Some((copied + body.0, body.1))
  }

  /** Copying one character moves it from the body still to be read to the characters copied. */
  lemma AfterCopy(copied: string, c: char, rest: Option<(string, nat)>)
    ensures After(copied, match rest case None => None case Some(body) => Some(([c] + body.0, body.1)))
         == After(copied + [c], rest)
  {
    match rest
    case None =>
    case Some(body) =>
      assert copied + ([c] + body.0) == (copied + [c]) + body.0;
  }

  /**
   * The append of json.c:393-399 and json.c:504-510: when fewer than two
   * entries are free, reallocate with `step` more; then store c after the
   * first `used` characters, followed by a terminator.
   */
  method PutChar(buffer: array<char>, used: nat, c: char, step: nat) returns (grown: array<char>)
    requires used + 1 <= buffer.Length && step >= 1
    modifies buffer
    ensures grown == buffer || fresh(grown)
    ensures grown.Length == if used + 2 > buffer.Length then buffer.Length + step else buffer.Length
    ensures grown[..used + 1] == old(buffer[..used]) + [c]
    ensures grown[used + 1] == '\0'
  {
    grown := buffer;
    if used + 2 > buffer.Length {
      grown := Realloc(buffer, buffer.Length + step);
      assert grown[..used] == grown[..buffer.Length][..used];
    }
    grown[used] := c;
    grown[used + 1] := '\0';
    assert grown[..used + 1] == grown[..used] + [c];
  }

  /**
   * json_parse_string (json.c:357-415). The buffer starts at 1024 characters
   * and grows by 512 whenever fewer than two are free, so the terminator
   * written after each character always fits.
   */
  method ParseString(s: string, i: nat) returns (r: Result<(Value, nat)>)
    requires i <= |s|
    ensures r == Grammar.ParseString(s, i)
  {
    if i + 2 <= |s| && s[i] == '"' && s[i + 1] == '"' {
      return Ok((String([]), i + 2));
    }
    var start := Scan(s, i, IsSpaceOrQuote);
    var size := 1024;
    var bufferI := 0;
    var buffer := new char[size];
    var escaped := false;
    var k := start;
    assert buffer[..bufferI] == [];
    assert StringBody(s, start, false) == After([], StringBody(s, start, false)) by {
      match StringBody(s, start, false)
      case None =>
      case Some(body) => assert [] + body.0 == body.0;
    }
    while k < |s|
      invariant start <= k <= |s|
      invariant fresh(buffer) && buffer.Length == size && bufferI + 1 <= size
      invariant bufferI > 0 ==> buffer[bufferI] == '\0'
      invariant k == start ==> bufferI == 0
      invariant StringBody(s, start, false) == After(buffer[..bufferI], StringBody(s, k, escaped))
      decreases |s| - k
    {
      var c := s[k];
      if c == '\\' {
        escaped := true;
        k := k + 1;
        continue;
      }
      if !escaped && c == '"' {
        break;
      }
      ghost var copied := buffer[..bufferI];
      AfterCopy(copied, c, StringBody(s, k + 1, false));
      buffer := PutChar(buffer, bufferI, c, 512);
      size := buffer.Length;
      bufferI := bufferI + 1;
      escaped := false;
      k := k + 1;
    }
    assert k == |s| || (s[k] == '"' && !escaped);
    assert k < |s| ==> StringBody(s, k, escaped) == Some(([], k as nat));
    assert k < |s| ==> k != start;
    assert buffer[..bufferI] + [] == buffer[..bufferI];
    if k == |s| && k != start {
      // the source goes on with a count one past the end of its input
      return Err(UnexpectedEndOfInput);
    }
    if k != start {
      k := k + 1;
    }
    r := Ok((String(buffer[..bufferI]), k));
  }

  /** json_parse_number (json.c:481-520): the token buffer starts at 16 characters and grows by 4. */
  method ParseNumber(s: string, i: nat) returns (r: Result<(Value, nat)>)
    requires i <= |s|
    ensures r == Grammar.ParseNumber(s, i)
  {
    var start := Scan(s, i, IsSpace);
    var capacity := 16;
    var dataI := 0;
    var data := new char[capacity];
    var k := start;
    while k < |s|
      invariant start <= k <= |s|
      invariant fresh(data) && data.Length == capacity && dataI + 1 <= capacity
      invariant dataI == k - start && data[..dataI] == s[start..k]
      invariant Span(s, k, IsNumberChar) == Span(s, start, IsNumberChar)
    {
      var c := s[k];
      if !IsNumberChar(c) {
        break;
      }
      data := PutChar(data, dataI, c, 4);
      capacity := data.Length;
      dataI := dataI + 1;
      assert s[start..k + 1] == s[start..k] + [c];
      k := k + 1;
    }
    r := Ok((Number(data[..dataI]), k));
  }

  /** json_parse_bool (json.c:522-550). */
  method ParseBool(s: string, i: nat) returns (r: Result<(Value, nat)>)
    requires i <= |s|
    ensures r == Grammar.ParseBool(s, i)
  {
    var start := Scan(s, i, IsSpace);
    if start + 4 <= |s| && s[start..start + 4] == "true" {
      r := Ok((Bool(true), start + 4));
    } else if start + 5 <= |s| {
      r := Ok((Bool(false), start + 5));
    } else {
      r := Err(UnexpectedEndOfInput);
    }
  }

  /** json_parse_null (json.c:552-569). */
  method ParseNull(s: string, i: nat) returns (r: Result<(Value, nat)>)
    requires i <= |s|
    ensures r == Grammar.ParseNull(s, i)
  {
    var start := Scan(s, i, IsSpace);
    if start + 4 <= |s| {
      r := Ok((Null, start + 4));
    } else {
      r := Err(UnexpectedEndOfInput);
    }
  }

  /** json_parse_item (json.c:571-611). */
  method ParseItem(s: string, i: nat) returns (r: Result<(Value, nat)>)
    requires i <= |s|
    ensures r == Grammar.ParseItem(s, i)
    decreases |s| - i, 2
  {
    var start := Scan(s, i, IsSpace);
    if start == |s| {
      return Err(UnexpectedEndOfInput);
    }
    var c := s[start];
    if c == '{' {
      r := ParseDict(s, start);
    } else if c == '[' {
      r := ParseArray(s, start);
    } else if c == '"' {
      r := ParseString(s, start);
    } else if c == 'n' {
      r := ParseNull(s, start);
    } else if IsDigit(c) {
      r := ParseNumber(s, start);
    } else if c == 't' || c == 'f' {
      r := ParseBool(s, start);
    } else {
      r := Err(UnexpectedToken(c));
    }
  }

  /** json_parse_dict_tuple (json.c:256-297). */
  method ParseDictTuple(s: string, i: nat) returns (r: Result<(string, Value, nat)>)
    requires i <= |s|
    ensures r == Grammar.ParseDictTuple(s, i)
    decreases |s| - i, 3
  {
    var start := Scan(s, i, IsSpace);
    var key := ParseString(s, start);
    if key.Err? {
      return Err(key.error);
    }
    var valStart := Scan(s, key.value.1, IsSpaceOrColon);
    var val := ParseItem(s, valStart);
    if val.Err? {
      return Err(val.error);
    }
    r := Ok((key.value.0.text, val.value.0, val.value.1));
  }

  /**
   * One pass of the member loop of json_parse_dict (json.c:321-345) at
   * `current`, setting the member read in `dict`. Gives an error, or whether
   * the object ended together with the position the object ends at or the
   * loop goes on from; `read` is the list of members set so far.
   */
  method MemberStep(s: string, current: nat, dict: HashMap<Value>, ghost members: seq<(string, Value)>)
      returns (status: Result<(bool, nat)>, ghost read: seq<(string, Value)>)
    requires current <= |s| && dict.Valid() && dict.Model() == FromMembers(members)
    modifies dict, dict.items
    ensures dict.Valid() && dict.Model() == FromMembers(read)
    ensures dict.items == old(dict.items) || fresh(dict.items)
    ensures status.Err? ==> Members(s, current, members) == Err(status.error)
    ensures status.Ok? && status.value.0 ==> Members(s, current, members) == Ok((read, status.value.1))
    ensures status.Ok? && !status.value.0 ==>
      current < status.value.1 <= |s| && Members(s, current, members) == Members(s, status.value.1, read)
    decreases |s| - current, 5
  {
    read := members;
    var member := ParseDictTuple(s, current);
    if member.Err? {
      return Err(member.error), read;
    }
    var sep := Scan(s, member.value.2, IsSpaceOrComma);
    MembersUnfold(s, current, members, member.value.0, member.value.1, member.value.2, sep);
    FromMembersSnoc(members, member.value.0, member.value.1);
    dict.Set(member.value.0, member.value.1);
    read := members + [(member.value.0, member.value.1)];
    if sep < |s| && s[sep] == '}' {
      status := Ok((true, sep + 1));
    } else if sep + 1 < |s| && s[sep + 1] != '}' {
      status := Ok((false, sep));
    } else {
      status := Ok((true, sep));
    }
  }

  /**
   * The member loop of json_parse_dict (json.c:316-346) from `first`, setting
   * each member read in `dict`; gives the position the object ends at.
   */
  method ReadMembers(s: string, first: nat, dict: HashMap<Value>) returns (r: Result<nat>, ghost read: seq<(string, Value)>)
    requires first <= |s| && dict.Valid() && dict.Model() == FromMembers([])
    modifies dict, dict.items
    ensures dict.Valid() && dict.Model() == FromMembers(read)
    ensures r.Err? ==> Members(s, first, []) == Err(r.error)
    ensures r.Ok? ==> Members(s, first, []) == Ok((read, r.value))
    decreases |s| - first, 6
  {
    var current := first;
    read := [];
    var status: Result<(bool, nat)> := Ok((false, current));
    while true
      invariant first <= current <= |s|
      invariant dict.items == old(dict.items) || fresh(dict.items)
      invariant dict.Valid() && dict.Model() == FromMembers(read)
      invariant Members(s, current, read) == Members(s, first, [])
      decreases |s| - current
    {
      status, read := MemberStep(s, current, dict, read);
      if status.Err? || status.value.0 {
        break;
      }
      current := status.value.1;
    }
    if status.Err? {
      return Err(status.error), read;
    }
    r := Ok(status.value.1);
  }

  /** json_parse_dict (json.c:299-355): members go into a fresh map of 16 slots through hashmap_set. */
  method ParseDict(s: string, i: nat) returns (r: Result<(Value, nat)>)
    requires i <= |s|
    ensures r == Grammar.ParseDict(s, i)
    decreases |s| - i, 1
  {
    var start := Scan(s, i, IsSpace);
    if start == |s| {
      return Err(UnexpectedEndOfInput);
    }
    var dict := new HashMap<Value>(16);
    var first := Scan(s, start + 1, IsSpace);
    if first == |s| || s[first] == '}' {
      var table := Table(dict.items[..], dict.stored, dict.tombstones);
      assert table == FromMembers([]);
      return Ok((Dict(table), if first == |s| then first else first + 1));
    }
    var end;
    ghost var members;
    end, members := ReadMembers(s, first, dict);
    if end.Err? {
      return Err(end.error);
    }
    var table := Table(dict.items[..], dict.stored, dict.tombstones);
    assert table == FromMembers(members);
    r := Ok((Dict(table), end.value));
  }

  /**
   * The append of json.c:456-461: when the buffer is full, reallocate it with
   * 4 more entries, then store v after the first `count` entries.
   */
  method Push(elements: array<Value>, count: nat, v: Value) returns (grown: array<Value>)
    requires count <= elements.Length
    modifies elements
    ensures grown == elements || fresh(grown)
    ensures grown.Length == Grow(count, elements.Length)
    ensures grown[..count + 1] == old(elements[..count]) + [v]
  {
    if count + 1 > elements.Length {
      grown := Realloc(elements, elements.Length + 4);
      assert grown[..count] == grown[..elements.Length][..count];
    } else {
      grown := elements;
    }
    grown[count] := v;
    assert grown[..count + 1] == grown[..count] + [v];
  }

  /** json_parse_array (json.c:417-479): elements go into a buffer of 4 entries that grows by 4. */
  method ParseArray(s: string, i: nat) returns (r: Result<(Value, nat)>)
    requires i <= |s|
    ensures r == Grammar.ParseArray(s, i)
    decreases |s| - i, 1
  {
    var start := Scan(s, i, IsSpace);
    if start == |s| {
      return Err(UnexpectedEndOfInput);
    }
    var first := Scan(s, start + 1, IsSpace);
    var capacity := 4;
    var count: nat := 0;
    var elements := new Value[capacity];
    if first == |s| {
      return Ok((Array([], capacity), first));
    }
    if s[first] == ']' {
      return Ok((Array([], capacity), first + 1));
    }
    assert elements[..count] == [];
    var current := first;
    var done := false;
    r := Err(UnexpectedEndOfInput);
    while !done
      invariant first <= current < |s|
      invariant fresh(elements) && elements.Length == capacity && capacity == Capacity(count)
      invariant !done ==> Elements(s, current, elements[..count], capacity) == Grammar.ParseArray(s, i)
      invariant done ==> r == Grammar.ParseArray(s, i)
      decreases |s| - current, !done
    {
      var step;
      step, elements, count, current := ElementStep(s, current, elements, count);
      capacity := elements.Length;
      if step.Some? {
        r := step.value;
        done := true;
      }
    }
  }

  /**
   * One pass of the element loop of json_parse_array (json.c:445-468) at
   * `current`: read an element, skip whitespace and commas and append the
   * element. Gives the finished array (or the error) when the loop ends,
   * and otherwise the position it goes on from.
   */
  method ElementStep(s: string, current: nat, elements: array<Value>, count: nat)
      returns (result: Option<Result<(Value, nat)>>, grown: array<Value>, count': nat, next: nat)
    requires current < |s| && elements.Length == Capacity(count)
    modifies elements
    ensures grown == elements || fresh(grown)
    ensures grown.Length == Capacity(count')
    ensures result.Some? ==> result.value == Elements(s, current, old(elements[..count]), elements.Length)
    ensures result.None? ==> current < next < |s|
    ensures result.Some? ==> next == current
    ensures result.None? ==> Elements(s, current, old(elements[..count]), elements.Length) == Elements(s, next, grown[..count'], grown.Length)
    decreases |s| - current, 4
  {
    grown, count', next := elements, count, current;
    ghost var before := elements[..count];
    var elem := ParseItem(s, current);
    if elem.Err? {
      return Some(Err(elem.error)), grown, count', next;
    }
    var v := elem.value.0;
    var sep := Scan(s, elem.value.1, IsSpaceOrComma);
    ElementsUnfold(s, current, before, elements.Length, v, elem.value.1, sep);
    ghost var capacity := Grow(count, elements.Length);
    grown := Push(elements, count, v);
    count' := count + 1;
    assert grown[..count'] == before + [v];
    assert grown.Length == capacity;
    if sep < |s| && s[sep] == ']' {
      result := Some(Ok((Array(grown[..count'], grown.Length), sep + 1)));
    } else if sep + 1 >= |s| {
      result := Some(Ok((Array(grown[..count'], grown.Length), |s|)));
    } else {
      result := None;
      next := sep;
    }
  }
}
