/**
 * What the parsers of json.c promise their callers, stated over the
 * functions of Grammar (which the methods of Parser are proved to compute):
 * how objects treat repeated keys, how string tokens and object members are
 * read back, and how empty containers behave, including the cases
 * tests/tests.c checks.
 */
module Properties {
  import opened HashTable
  import opened Json
  import opened Grammar

  // ---------------------------------------------------------------- objects

  /** The members of an object as a map, a later member replacing an earlier one with the same key. */
  ghost function MembersMap(ms: seq<(string, Value)>): map<string, Value>
  {
    if ms == [] then map[] else MembersMap(ms[..|ms| - 1])[ms[|ms| - 1].0 := ms[|ms| - 1].1]
  }

  /** The distinct keys among the members. */
  ghost function Keys(ms: seq<(string, Value)>): set<string>
  {
    set k | 0 <= k < |ms| :: ms[k].0
  }

  /** The map json_parse_dict fills by hashmap_set holds exactly the members, later ones winning (json.c:342). */
  lemma {:induction false} FromMembersContents(ms: seq<(string, Value)>)
    ensures Inv(FromMembers(ms)) && |FromMembers(ms).slots| >= 1
    ensures Contents(FromMembers(ms).slots) == MembersMap(ms)
    decreases |ms|
  {
    if ms == [] {
      NewSpec<Value>(16);
    } else {
      var n := |ms|;
      FromMembersContents(ms[..n - 1]);
      SetSpec(FromMembers(ms[..n - 1]), ms[n - 1].0, ms[n - 1].1);
    }
  }

  /** A key is in the members' map exactly when some member has it. */
  lemma {:induction false} MembersMapKeys(ms: seq<(string, Value)>)
    ensures MembersMap(ms).Keys == Keys(ms)
    decreases |ms|
  {
    if ms != [] {
      var n := |ms|;
      var prefix := ms[..n - 1];
      MembersMapKeys(prefix);
      forall key | key in Keys(ms)
        ensures key in Keys(prefix) + {ms[n - 1].0}
      {
        var k :| 0 <= k < n && ms[k].0 == key;
        if k < n - 1 {
          assert prefix[k] == ms[k];
        }
      }
      forall key | key in Keys(prefix)
        ensures key in Keys(ms)
      {
        var k :| 0 <= k < n - 1 && prefix[k].0 == key;
        assert ms[k] == prefix[k];
      }
    }
  }

  /** The value a key maps to is the one of its last member. */
  lemma {:induction false} LastMemberWins(ms: seq<(string, Value)>, j: nat)
    requires j < |ms|
    requires forall k :: j < k < |ms| ==> ms[k].0 != ms[j].0
    ensures ms[j].0 in MembersMap(ms) && MembersMap(ms)[ms[j].0] == ms[j].1
    decreases |ms|
  {
    var n := |ms|;
    if j < n - 1 {
      var prefix := ms[..n - 1];
      assert prefix[j] == ms[j];
      forall k | j < k < n - 1
        ensures prefix[k].0 != prefix[j].0
      {
        assert prefix[k] == ms[k];
      }
      LastMemberWins(prefix, j);
    }
  }

  /**
   * Duplicate keys in an object are last-write-wins: json_get_dict_item on
   * the parsed object gives the value of the last member with that key, and
   * nothing for a key no member has (json.c:342, 621-625).
   */
  lemma DictItemIsLastMember(ms: seq<(string, Value)>, key: string)
    ensures var d := Dict(FromMembers(ms));
      && Inv(d.table) && |d.table.slots| >= 1
      && (key !in Keys(ms) ==> GetDictItem(d, key) == None)
      && (forall j :: 0 <= j < |ms| && ms[j].0 == key && (forall k :: j < k < |ms| ==> ms[k].0 != key) ==>
            GetDictItem(d, key) == Some(ms[j].1))
  {
    FromMembersContents(ms);
    MembersMapKeys(ms);
    forall j | 0 <= j < |ms| && ms[j].0 == key && (forall k :: j < k < |ms| ==> ms[k].0 != key)
      ensures GetDictItem(Dict(FromMembers(ms)), key) == Some(ms[j].1)
    {
      LastMemberWins(ms, j);
    }
  }

  /** The size of a parsed object, n_data_items = stored, is its number of distinct keys (json.c:348). */
  lemma DictSizeIsDistinctKeys(ms: seq<(string, Value)>)
    ensures GetSize(Dict(FromMembers(ms))) == |Keys(ms)|
  {
    FromMembersContents(ms);
    MembersMapKeys(ms);
  }

  // ---------------------------------------------------------------- strings

  /** A string with every quote preceded by a backslash, as it would appear between the quotes of a token. */
  function Quote(t: string): (q: string)
    ensures |q| >= |t|
    ensures t != [] ==> q[0] == (if t[0] == '"' then '\\' else t[0])
  {
    if t == [] then [] else (if t[0] == '"' then ['\\', '"'] else [t[0]]) + Quote(t[1..])
  }

  /** The body loop reads a quoted text back up to the closing quote that follows it. */
  lemma {:induction false} BodyOfQuoted(s: string, k: nat, t: string)
    requires forall c :: c in t ==> c != '\\'
    requires k + |Quote(t)| < |s| && s[k..k + |Quote(t)|] == Quote(t) && s[k + |Quote(t)|] == '"'
    ensures StringBody(s, k, false) == Some((t, k + |Quote(t)|))
    decreases |t|
  {
    if t != [] {
      var q := Quote(t);
      var rest := Quote(t[1..]);
      assert forall c :: c in t[1..] ==> c in t;
      if t[0] == '"' {
        assert q == ['\\', '"'] + rest;
        assert s[k] == q[0] && s[k + 1] == q[1];
        assert s[k + 2..k + 2 + |rest|] == q[2..];
        BodyOfQuoted(s, k + 2, t[1..]);
        assert StringBody(s, k + 1, true) == Some(([t[0]] + t[1..], k + |q|));
        assert StringBody(s, k, false) == StringBody(s, k + 1, true);
      } else {
        assert q == [t[0]] + rest;
        assert t[0] in t && s[k] == q[0];
        assert s[k + 1..k + 1 + |rest|] == q[1..];
        BodyOfQuoted(s, k + 1, t[1..]);
        assert StringBody(s, k, false) == Some(([t[0]] + t[1..], k + |q|));
      }
      assert [t[0]] + t[1..] == t;
    } else {
      assert Quote(t) == [];
      assert s[k] == '"';
    }
  }

  /** A token whose body starts with neither whitespace nor a quote is read from just after its opening quote, up to the closing one. */
  lemma {:induction false} BodyAfterQuote(s: string, i: nat, t: string)
    requires i + |Quote(t)| + 2 <= |s| && s[i] == '"' && !IsSpaceOrQuote(s[i + 1])
    requires StringBody(s, i + 1, false) == Some((t, i + 1 + |Quote(t)|))
    ensures ParseString(s, i) == Ok((String(t), i + |Quote(t)| + 2))
  {
    SpanOver(s, i, i + 1, IsSpaceOrQuote);
  }

  /** A non-empty quoted text without backslashes, not starting with whitespace, is read whole. */
  lemma QuotedText(s: string, i: nat, t: string)
    requires forall c :: c in t ==> c != '\\'
    requires t != [] && !IsSpace(t[0])
    requires i + |Quote(t)| + 2 <= |s| && s[i] == '"' && s[i + 1 + |Quote(t)|] == '"'
    requires s[i + 1..i + 1 + |Quote(t)|] == Quote(t)
    ensures ParseString(s, i) == Ok((String(t), i + |Quote(t)| + 2))
  {
    BodyOfQuoted(s, i + 1, t);
    assert s[i + 1] == Quote(t)[0];
    BodyAfterQuote(s, i, t);
  }

  /**
   * Round trip of json_parse_string (json.c:357-415): wherever an input holds
   * a text without backslashes, its quotes escaped and the whole put between
   * quotes, the text is read back whole, and the count ends just past the
   * closing quote. The text must not start with whitespace, which the source
   * skips together with the opening quote (json.c:373-376).
   */
  lemma StringRoundTrip(s: string, i: nat, t: string)
    requires forall c :: c in t ==> c != '\\'
    requires t == [] || !IsSpace(t[0])
    requires i + |Quote(t)| + 2 <= |s| && s[i] == '"' && s[i + 1 + |Quote(t)|] == '"'
    requires s[i + 1..i + 1 + |Quote(t)|] == Quote(t)
    ensures ParseString(s, i) == Ok((String(t), i + |Quote(t)| + 2))
  {
    if t == [] {
      assert Quote(t) == [];
      EmptyStringToken(s, i);
    } else {
      QuotedText(s, i, t);
    }
  }

  /** `""` is the empty string with a count of 2, whatever follows (json.c:364-370). */
  lemma EmptyStringToken(s: string, i: nat)
    requires i + 2 <= |s| && s[i] == '"' && s[i + 1] == '"'
    ensures ParseString(s, i) == Ok((String([]), i + 2))
  {
  }

  /** A backslash makes the next character literal: an escaped quote is copied and does not end the string (json.c:386-392). */
  lemma EscapedQuoteIsKept(s: string, k: nat)
    requires k + 1 < |s| && s[k] == '\\' && s[k + 1] == '"'
    ensures StringBody(s, k, false) == match StringBody(s, k + 2, false)
      case None => None
      case Some(body) => Some((['"'] + body.0, body.1))
  {
  }

  /** A backslash after a backslash is not copied: it only keeps the escape going (json.c:386-389). */
  lemma EscapedBackslashIsDropped(s: string, k: nat)
    requires k + 1 < |s| && s[k] == '\\' && s[k + 1] == '\\'
    ensures StringBody(s, k, false) == StringBody(s, k + 2, true)
  {
  }

  /** When the string has a body, the count ends just past its closing quote. */
  lemma StringEndsAtQuote(s: string, i: nat)
    requires i <= |s| && Span(s, i, IsSpaceOrQuote) < |s|
    ensures ParseString(s, i).Ok? ==> s[ParseString(s, i).value.1 - 1] == '"'
  {
    BodyEnd(s, Span(s, i, IsSpaceOrQuote), false);
  }

  // ---------------------------------------------------------------- members

  /** A member read as the given key and the result of reading its value. */
  function Member(key: string, item: Result<(Value, nat)>): (r: Result<(string, Value, nat)>)
    ensures r.Ok? <==> item.Ok?
  {
    match item
    case Err(e) => Err(e)
    case Ok(v) => Ok((key, v.0, v.1))
  }

  /**
   * A member whose key token starts at i, followed by a run of whitespace and
   * colons up to at, is read as that key and the item read at at.
   */
  lemma {:induction false} MemberAt(s: string, i: nat, key: string, keyEnd: nat, at: nat)
    requires i < |s| && !IsSpace(s[i]) && keyEnd <= at <= |s|
    requires ParseString(s, i) == Ok((String(key), keyEnd))
    requires forall k :: keyEnd <= k < at ==> IsSpaceOrColon(s[k])
    requires at == |s| || !IsSpaceOrColon(s[at])
    ensures ParseDictTuple(s, i) == Member(key, ParseItem(s, at))
  {
    SpanOver(s, i, i, IsSpace);
    SpanOver(s, keyEnd, at, IsSpaceOrColon);
  }

  /**
   * Round trip of json_parse_dict_tuple (json.c:260-297): a quoted key without
   * backslashes, then a run of whitespace and colons, then a value gives back
   * the key unchanged, the value json_parse_item reads where the run ends, and
   * that value's count.
   */
  lemma DictTupleRoundTrip(s: string, i: nat, t: string, at: nat)
    requires forall c :: c in t ==> c != '\\'
    requires t == [] || !IsSpace(t[0])
    requires i + |Quote(t)| + 2 <= at <= |s| && s[i] == '"' && s[i + 1 + |Quote(t)|] == '"'
    requires s[i + 1..i + 1 + |Quote(t)|] == Quote(t)
    requires forall k :: i + |Quote(t)| + 2 <= k < at ==> IsSpaceOrColon(s[k])
    requires at == |s| || !IsSpaceOrColon(s[at])
    ensures ParseDictTuple(s, i) == Member(t, ParseItem(s, at))
  {
    StringRoundTrip(s, i, t);
    MemberAt(s, i, t, i + |Quote(t)| + 2, at);
  }

  // ---------------------------------------------------------------- empty containers

  /**
   * An object whose braces hold only whitespace is empty, of size 0, and its
   * count ends just past the closing brace, whatever follows it.
   */
  lemma EmptyObject(s: string, n: nat)
    requires 2 <= n <= |s| && s[0] == '{' && s[n - 1] == '}'
    requires forall k :: 0 < k < n - 1 ==> IsSpace(s[k])
    ensures ParseDict(s, 0) == Ok((Dict(FromMembers([])), n))
    ensures GetSize(ParseDict(s, 0).value.0) == 0
  {
    SpanOver(s, 0, 0, IsSpace);
    SpanOver(s, 1, n - 1, IsSpace);
    DictSizeIsDistinctKeys([]);
  }

  /** An array whose brackets hold only whitespace is empty, and its count ends just past the closing bracket. */
  lemma EmptyArray(s: string, n: nat)
    requires 2 <= n <= |s| && s[0] == '[' && s[n - 1] == ']'
    requires forall k :: 0 < k < n - 1 ==> IsSpace(s[k])
    ensures ParseArray(s, 0) == Ok((Array([], 4), n))
    ensures GetSize(ParseArray(s, 0).value.0) == 0
  {
    SpanOver(s, 0, 0, IsSpace);
    SpanOver(s, 1, n - 1, IsSpace);
  }

  // ---------------------------------------------------------------- tests/tests.c

  /** Test 1: `{   } extra garbage` is an empty object of size 0 and the count leaves ` extra garbage`. */
  lemma EmptyObjectLeavesGarbage()
    ensures var s := "{   } extra garbage";
      && ParseDict(s, 0).Ok?
      && GetSize(ParseDict(s, 0).value.0) == 0
      && s[ParseDict(s, 0).value.1..] == " extra garbage"
  {
    EmptyObject("{   } extra garbage", 5);
  }

  /** Test 2: `{   }` is an empty object of size 0 and the count is the whole input. */
  lemma EmptyObjectIsWholeInput()
    ensures var s := "{   }";
      && ParseDict(s, 0).Ok?
      && GetSize(ParseDict(s, 0).value.0) == 0
      && ParseDict(s, 0).value.1 == |s|
  {
    EmptyObject("{   }", 5);
  }

  /** Test 3: `[   ] extra` is an empty array and the count leaves ` extra`. */
  lemma EmptyArrayLeavesExtra()
    ensures var s := "[   ] extra";
      && ParseArray(s, 0).Ok?
      && GetSize(ParseArray(s, 0).value.0) == 0
      && s[ParseArray(s, 0).value.1..] == " extra"
  {
    EmptyArray("[   ] extra", 5);
  }
}
