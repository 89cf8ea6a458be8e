/**
 * What the parsers of json.c:256-611 compute, as functions. A parser is given
 * the input `s` and a position `i` (the C function's `str` is `s[i..]`) and
 * returns the value it built and the position just past what it consumed, so
 * the count the C code writes through `*idx` is that position minus `i`.
 * Every count includes the whitespace the parser skipped first.
 */
module Grammar {
  import opened HashTable
  import opened Json

  datatype Error = UnexpectedEndOfInput | UnexpectedToken(found: char)

  datatype Result<T> = Ok(value: T) | Err(error: Error)

  // ---------------------------------------------------------------- characters

  /** isspace in the C locale: space, \t, \n, \v, \f, \r. */
  predicate IsSpace(c: char)
  {
    c == ' ' || c == '\t' || c == '\n' || c == '\r' || c as int == 11 || c as int == 12
  }

  predicate IsDigit(c: char)
  {
    '0' <= c <= '9'
  }

  /** Skipped before a string's contents (json.c:374). */
  predicate IsSpaceOrQuote(c: char)
  {
    IsSpace(c) || c == '"'
  }

  /** Skipped between a key and its value (json.c:274). */
  predicate IsSpaceOrColon(c: char)
  {
    IsSpace(c) || c == ':'
  }

  /** Skipped after an element or member (json.c:335, 452). */
  predicate IsSpaceOrComma(c: char)
  {
    IsSpace(c) || c == ','
  }

  /** Characters of a number token (json.c:501). */
  predicate IsNumberChar(c: char)
  {
    IsDigit(c) || c == '.' || c == 'e'
  }

  /** The characters json_parse_item dispatches on (json.c:586-603). */
  predicate StartsValue(c: char)
  {
    c == '{' || c == '[' || c == '"' || c == 'n' || IsDigit(c) || c == 't' || c == 'f'
  }

  /** `c` is the character json_parse_item dispatches on to build a value of v's kind. */
  predicate Opens(v: Value, c: char)
  {
    match v
    case Dict(_) => c == '{'
    case Array(_, _) => c == '['
    case String(_) => c == '"'
    case Null => c == 'n'
    case Number(_) => IsDigit(c)
    case Bool(_) => c == 't' || c == 'f'
  }

  /** The first position at or after `i` whose character fails `p`, or the end of the input. */
  function Span(s: string, i: nat, p: char -> bool): (j: nat)
    requires i <= |s|
    ensures i <= j <= |s|
    ensures forall k :: i <= k < j ==> p(s[k])
    ensures j < |s| ==> !p(s[j])
    decreases |s| - i
  {
    if i == |s| || !p(s[i]) then i else Span(s, i + 1, p)
  }

  /** A span ends at the first failing character: starting again from any position up to it, or from it, gives the same end. */
  lemma {:induction false} SpanFrom(s: string, i: nat, m: nat, p: char -> bool)
    requires i <= |s| && i <= m <= Span(s, i, p)
    ensures Span(s, m, p) == Span(s, i, p)
    decreases |s| - i
  {
    if i < m {
      SpanFrom(s, i + 1, m, p);
    }
  }

  /** A run of characters satisfying p, followed by the end or by one that does not, is exactly what a span covers. */
  lemma {:induction false} SpanOver(s: string, a: nat, b: nat, p: char -> bool)
    requires a <= b <= |s|
    requires forall k :: a <= k < b ==> p(s[k])
    requires b == |s| || !p(s[b])
    ensures Span(s, a, p) == b
    decreases b - a
  {
    if a < b {
      SpanOver(s, a + 1, b, p);
    }
  }

  // ---------------------------------------------------------------- strings

  /**
   * The loop of json_parse_string (json.c:384-404) from position k: a
   * backslash is dropped and makes the next character literal; an unescaped
   * quote ends the string. Gives the copied characters and the position of
   * the closing quote, or None when the input ends first.
   */
  function StringBody(s: string, k: nat, escaped: bool): Option<(string, nat)>
    requires k <= |s|
    decreases |s| - k
  {
    if k == |s| then None
    else if s[k] == '\\' then StringBody(s, k + 1, true)
    else if !escaped && s[k] == '"' then Some(([], k))
    else
      match StringBody(s, k + 1, false)
      case None => None
      case Some(body) => Some(([s[k]] + body.0, body.1))
  }

  /**
   * json_parse_string (json.c:357-415): `""` is the empty string; otherwise
   * leading whitespace and quotes are skipped and the body is read up to the
   * closing quote, which is consumed. Input that ends inside the body is an
   * error (the source reports a count one past the end of its input).
   */
  function ParseString(s: string, i: nat): (r: Result<(Value, nat)>)
    requires i <= |s|
    ensures r.Ok? ==> r.value.0.String? && i <= r.value.1 <= |s|
    ensures r.Ok? && i < |s| ==> i < r.value.1
  {
    if i + 2 <= |s| && s[i] == '"' && s[i + 1] == '"' then Ok((String([]), i + 2))
    else
      var start := Span(s, i, IsSpaceOrQuote);
      match StringBody(s, start, false)
      case Some(body) =>
        BodyEnd(s, start, false);
        Ok((String(body.0), body.1 + 1))
      case None =>
        if start == |s| then Ok((String([]), start)) else Err(UnexpectedEndOfInput)
  }

  lemma {:induction false} BodyEnd(s: string, k: nat, escaped: bool)
    requires k <= |s|
    ensures StringBody(s, k, escaped).Some? ==> k <= StringBody(s, k, escaped).value.1 < |s|
    ensures StringBody(s, k, escaped).Some? ==> s[StringBody(s, k, escaped).value.1] == '"'
    decreases |s| - k
  {
    if k < |s| {
      BodyEnd(s, k + 1, s[k] == '\\');
    }
  }

  // ---------------------------------------------------------------- scalars

  /** json_parse_number (json.c:481-520): the longest run of digits, '.' and 'e' after leading whitespace. */
  function ParseNumber(s: string, i: nat): (r: Result<(Value, nat)>)
    requires i <= |s|
    ensures r.Ok? && r.value.0.Number?
    ensures var start := Span(s, i, IsSpace); var end := r.value.1;
      && start <= end <= |s|
      && r.value.0.token == s[start..end]
      && (forall k :: start <= k < end ==> IsNumberChar(s[k]))
      && (end < |s| ==> !IsNumberChar(s[end]))
  {
    var start := Span(s, i, IsSpace);
    var end := Span(s, start, IsNumberChar);
    Ok((Number(s[start..end]), end))
  }

  /**
   * json_parse_bool (json.c:522-550): `true` after leading whitespace, and
   * `false` for anything else, consuming five characters without looking at
   * them. Fewer than five characters left is an error (the source's count
   * then runs past its input).
   */
  function ParseBool(s: string, i: nat): (r: Result<(Value, nat)>)
    requires i <= |s|
    ensures var start := Span(s, i, IsSpace);
      && (r.Ok? ==> r.value.0.Bool? && r.value.1 == start + (if r.value.0.b then 4 else 5) <= |s|)
      && (r.Ok? ==> (r.value.0.b <==> s[start..start + 4] == "true"))
      && (r.Err? <==> start + 5 > |s| && !(start + 4 <= |s| && s[start..start + 4] == "true"))
  {
    var start := Span(s, i, IsSpace);
    if start + 4 <= |s| && s[start..start + 4] == "true" then Ok((Bool(true), start + 4))
    else if start + 5 <= |s| then Ok((Bool(false), start + 5))
    else Err(UnexpectedEndOfInput)
  }

  /** json_parse_null (json.c:552-569): four characters after leading whitespace, not inspected; fewer left is an error. */
  function ParseNull(s: string, i: nat): (r: Result<(Value, nat)>)
    requires i <= |s|
    ensures r.Ok? <==> Span(s, i, IsSpace) + 4 <= |s|
    ensures r.Ok? ==> r.value == (Null, Span(s, i, IsSpace) + 4)
  {
    var start := Span(s, i, IsSpace);
    if start + 4 <= |s| then Ok((Null, start + 4)) else Err(UnexpectedEndOfInput)
  }

  // ---------------------------------------------------------------- values

  /**
   * json_parse_item (json.c:571-611): dispatch on the first character after
   * whitespace. A character that starts no value, or the end of the input, is
   * an error (the source returns an uninitialised pointer). The position
   * returned counts from `i`, so the skipped whitespace is part of the count.
   */
  function ParseItem(s: string, i: nat): (r: Result<(Value, nat)>)
    requires i <= |s|
    ensures r.Ok? ==> i < r.value.1 <= |s| && WellFormed(r.value.0)
    ensures var start := Span(s, i, IsSpace);
      && (start == |s| ==> r == Err(UnexpectedEndOfInput))
      && (start < |s| && !StartsValue(s[start]) ==> r == Err(UnexpectedToken(s[start])))
      && (r.Ok? ==> start < |s| && Opens(r.value.0, s[start]))
    decreases |s| - i, 2
  {
    var start := Span(s, i, IsSpace);
    if start == |s| then Err(UnexpectedEndOfInput)
    else
      var c := s[start];
      SpanFrom(s, i, start, IsSpace);
      if c == '{' then ParseDict(s, start)
      else if c == '[' then ParseArray(s, start)
      else if c == '"' then ParseString(s, start)
      else if c == 'n' then ParseNull(s, start)
      else if IsDigit(c) then ParseNumber(s, start)
      else if c == 't' || c == 'f' then ParseBool(s, start)
      else Err(UnexpectedToken(c))
  }

  // ---------------------------------------------------------------- objects

  /**
   * json_parse_dict_tuple (json.c:256-297): a key string after whitespace,
   * then whitespace and colons, then a value. Gives the key's text, the value
   * and the position after the value.
   */
  function ParseDictTuple(s: string, i: nat): (r: Result<(string, Value, nat)>)
    requires i <= |s|
    ensures r.Ok? ==> i < r.value.2 <= |s| && WellFormed(r.value.1)
    decreases |s| - i, 3
  {
    var start := Span(s, i, IsSpace);
    match ParseString(s, start)
    case Err(e) => Err(e)
    case Ok(key) =>
      var valStart := Span(s, key.1, IsSpaceOrColon);
      match ParseItem(s, valStart)
      case Err(e) => Err(e)
      case Ok(val) => Ok((key.0.text, val.0, val.1))
  }

  /**
   * json_parse_dict (json.c:299-355): skip whitespace and the opening brace,
   * then read members into a map created with 16 slots. Before the first
   * member, whitespace is skipped and a `}` there closes the empty object
   * (json.c:316-319 tests the character right after the brace instead). Empty
   * input is an error (the source's count runs past it).
   */
  function ParseDict(s: string, i: nat): (r: Result<(Value, nat)>)
    requires i <= |s|
    ensures r.Ok? ==> i < r.value.1 <= |s| && r.value.0.Dict? && WellFormed(r.value.0)
    decreases |s| - i, 1
  {
    var start := Span(s, i, IsSpace);
    if start == |s| then Err(UnexpectedEndOfInput)
    else
      var q := Span(s, start + 1, IsSpace);
      FromMembersWellFormed([]);
      if q == |s| then Ok((Dict(FromMembers([])), q))
      else if s[q] == '}' then Ok((Dict(FromMembers([])), q + 1))
      else
        match Members(s, q, [])
        case Err(e) => Err(e)
        case Ok(read) =>
          FromMembersWellFormed(read.0);
          Ok((Dict(FromMembers(read.0)), read.1))
  }

  /** The map json_parse_dict builds: a fresh map of 16 slots, then hashmap_set for each member in order (json.c:311, 342). */
  function FromMembers(ms: seq<(string, Value)>): Table<Value>
  {
    if ms == [] then New(16)
    else HashTable.Set(FromMembers(ms[..|ms| - 1]), ms[|ms| - 1].0, ms[|ms| - 1].1)
  }

  /** A map built from well-formed values satisfies the map invariant, has slots, and holds only well-formed values. */
  lemma {:induction false} FromMembersWellFormed(ms: seq<(string, Value)>)
    requires forall k :: 0 <= k < |ms| ==> WellFormed(ms[k].1)
    ensures WellFormed(Dict(FromMembers(ms)))
    decreases |ms|
  {
    if ms == [] {
      NewSpec<Value>(16);
    } else {
      var n := |ms|;
      var prefix := ms[..n - 1];
      assert forall k :: 0 <= k < n - 1 ==> prefix[k] == ms[k];
      var t := FromMembers(prefix);
      FromMembersWellFormed(prefix);
      assert AllValues(t.slots, WellFormed);
      SetSpec(t, ms[n - 1].0, ms[n - 1].1);
      SetValues(t, ms[n - 1].0, ms[n - 1].1, WellFormed);
      var u := HashTable.Set(t, ms[n - 1].0, ms[n - 1].1);
      assert FromMembers(ms) == u;
      assert AllValues(u.slots, WellFormed);
    }
  }

  /** Setting one more member. */
  lemma FromMembersSnoc(ms: seq<(string, Value)>, key: string, val: Value)
    ensures FromMembers(ms + [(key, val)]) == HashTable.Set(FromMembers(ms), key, val)
  {
    assert (ms + [(key, val)])[..|ms|] == ms;
  }

  /**
   * One pass of the member loop of json_parse_dict (json.c:321-345) at `pos`,
   * with the members `ms` read so far: read a member, then skip whitespace
   * and commas. A `}` there is consumed and ends the object. Otherwise the
   * loop goes on from there unless at most one character is left or the
   * character after it is `}` (the test at json.c:318 sees position
   * `current_idx + 1`); then the object ends without consuming anything more.
   * Gives every member read, in order, and the position after the object.
   */
  function Members(s: string, pos: nat, ms: seq<(string, Value)>): (r: Result<(seq<(string, Value)>, nat)>)
    requires pos <= |s|
    ensures r.Ok? ==> pos < r.value.1 <= |s|
    ensures r.Ok? ==> |r.value.0| > |ms| && r.value.0[..|ms|] == ms
    ensures r.Ok? ==> forall k :: |ms| <= k < |r.value.0| ==> WellFormed(r.value.0[k].1)
    decreases |s| - pos, 4
  {
    match ParseDictTuple(s, pos)
    case Err(e) => Err(e)
    case Ok(member) =>
      var sep := Span(s, member.2, IsSpaceOrComma);
      var ms' := ms + [(member.0, member.1)];
      if sep < |s| && s[sep] == '}' then Ok((ms', sep + 1))
      else if sep + 1 < |s| && s[sep + 1] != '}' then
        var r := Members(s, sep, ms');
        assert r.Ok? ==> r.value.0[..|ms|] == r.value.0[..|ms'|][..|ms|];
        r
      else Ok((ms', sep))
  }

  /** One member read: the member loop ends at a closing brace, near the end or before a brace, or goes on from the separator with the member added. */
  lemma MembersUnfold(s: string, pos: nat, ms: seq<(string, Value)>, key: string, val: Value, end: nat, sep: nat)
    requires pos <= |s|
    requires ParseDictTuple(s, pos) == Ok((key, val, end)) && end <= |s|
    requires sep == Span(s, end, IsSpaceOrComma)
    ensures sep < |s| && s[sep] == '}' ==> Members(s, pos, ms) == Ok((ms + [(key, val)], sep + 1))
    ensures !(sep < |s| && s[sep] == '}') && sep + 1 < |s| && s[sep + 1] != '}' ==>
      Members(s, pos, ms) == Members(s, sep, ms + [(key, val)])
    ensures !(sep < |s| && s[sep] == '}') && !(sep + 1 < |s| && s[sep + 1] != '}') ==>
      Members(s, pos, ms) == Ok((ms + [(key, val)], sep))
  {
  }

  // ---------------------------------------------------------------- arrays

  /**
   * json_parse_array (json.c:417-479): skip whitespace, the opening bracket
   * and whitespace; `]` there is the empty array (the source parses an item
   * there instead); otherwise read elements into a buffer of 4 entries that
   * grows by 4. Empty input is an error (the source's count runs past it).
   */
  function ParseArray(s: string, i: nat): (r: Result<(Value, nat)>)
    requires i <= |s|
    ensures r.Ok? ==> i < r.value.1 <= |s| && r.value.0.Array? && WellFormed(r.value.0)
    decreases |s| - i, 1
  {
    var start := Span(s, i, IsSpace);
    if start == |s| then Err(UnexpectedEndOfInput)
    else
      var first := Span(s, start + 1, IsSpace);
      if first == |s| then Ok((Array([], 4), first))
      else if s[first] == ']' then Ok((Array([], 4), first + 1))
      else Elements(s, first, [], 4)
  }

  /** The capacity of the element buffer holding n elements: 4 at first, 4 more each time it is full (json.c:437, 456-459). */
  function Capacity(n: nat): (c: nat)
    ensures n <= c && c % 4 == 0
    ensures n > 0 ==> c < n + 4
  {
    if n <= 4 then 4 else Capacity(n - 4) + 4
  }

  /** The element buffer's capacity after one more append: it grows by 4 when full (json.c:456-459). */
  function Grow(count: nat, capacity: nat): (c: nat)
    requires count <= capacity
    ensures capacity == Capacity(count) ==> c == Capacity(count + 1)
  {
    if count + 1 > capacity then capacity + 4 else capacity
  }

  /**
   * One pass of the element loop of json_parse_array (json.c:444-469) at
   * `pos`: read an element, skip whitespace and commas, append. A `]` there
   * ends the array; the loop also ends when at most one character is left.
   * The elements already read stay in front, in order, and the one read here
   * comes next.
   */
  function Elements(s: string, pos: nat, acc: seq<Value>, capacity: nat): (r: Result<(Value, nat)>)
    requires pos < |s| && capacity == Capacity(|acc|)
    ensures r.Ok? ==> pos < r.value.1 <= |s| && r.value.0.Array?
    ensures r.Ok? && (forall k :: 0 <= k < |acc| ==> WellFormed(acc[k])) ==> WellFormed(r.value.0)
    ensures r.Ok? ==> r.value.0.capacity == Capacity(|r.value.0.items|)
    ensures r.Ok? ==> |r.value.0.items| > |acc| && r.value.0.items[..|acc|] == acc
    ensures r.Ok? ==> ParseItem(s, pos).Ok? && r.value.0.items[|acc|] == ParseItem(s, pos).value.0
    decreases |s| - pos, 3
  {
    match ParseItem(s, pos)
    case Err(e) => Err(e)
    case Ok(elem) =>
      var next := Span(s, elem.1, IsSpaceOrComma);
      var cap := Grow(|acc|, capacity);
      var items := acc + [elem.0];
      assert items[..|acc|] == acc && items[|acc|] == elem.0;
      assert (forall k :: 0 <= k < |acc| ==> WellFormed(acc[k])) ==> WellFormed(Array(items, cap)) by {
        if forall k :: 0 <= k < |acc| ==> WellFormed(acc[k]) {
          assert forall k :: 0 <= k < |items| ==> WellFormed(items[k]);
        }
      }
      if next < |s| && s[next] == ']' then Ok((Array(items, cap), next + 1))
      else if next + 1 < |s| then
        var r := Elements(s, next, items, cap);
        assert r.Ok? ==> r.value.0.items[..|acc|] == r.value.0.items[..|items|][..|acc|];
        r
      else Ok((Array(items, cap), |s|))
  }

  /** One element read: the element loop ends at a closing bracket or near the end, or goes on from the separator. */
  lemma ElementsUnfold(s: string, pos: nat, acc: seq<Value>, capacity: nat, elem: Value, end: nat, next: nat)
    requires pos < |s| && capacity == Capacity(|acc|)
    requires ParseItem(s, pos) == Ok((elem, end)) && end <= |s|
    requires next == Span(s, end, IsSpaceOrComma)
    ensures next < |s| && s[next] == ']' ==>
      Elements(s, pos, acc, capacity) == Ok((Array(acc + [elem], Grow(|acc|, capacity)), next + 1))
    ensures !(next < |s| && s[next] == ']') && next + 1 < |s| ==>
      Elements(s, pos, acc, capacity) == Elements(s, next, acc + [elem], Grow(|acc|, capacity))
    ensures !(next < |s| && s[next] == ']') && next + 1 >= |s| ==>
      Elements(s, pos, acc, capacity) == Ok((Array(acc + [elem], Grow(|acc|, capacity)), |s|))
  {
  }
}
