/** The Alfred workflow helpers: result items, the unescaping of Alfred's
    `{query}` argument, item identifiers, the cut-off of a result list at the
    number of rows Alfred shows, and the dispatch of an action to its handler. */
module Alfred {

  import opened Common
  import opened Strings

  /** The characters Alfred's "escape" options put a backslash before. */
  const UnescapeCharacters: string := " ;()"

  /** `xml(items)` shows at most this many items by default. */
  const MaxResultsDefault: nat := 9

  /** The prefix every handler's method name carries. */
  const HandlerPrefix: string := "do_"

  /** One result row: the attributes `uid`, `arg`, `autocomplete` and `ignore`
      (`ignore='yes'` when true), then the title, the subtitle and the icon
      (`None` where the source gives `None`). */
  datatype Item = Item(
    uid: string,
    arg: Option<string>,
    autocomplete: Option<string>,
    ignore: bool,
    title: string,
    subtitle: Option<string>,
    icon: Option<string>)

  /** What a generator of items produces when it is run to its end: the items
      it yields and, if it stops by raising, the exception it raises after
      the last of them. */
  datatype Stream = Stream(items: seq<Item>, raised: Option<Error>)

  /** `get_uid(uid)`: the bundle identifier and the number, joined by `-`. */
  function GetUid(bundleId: string, uid: nat): (r: string)
    ensures |r| > |bundleId| + 1 && r[..|bundleId|] == bundleId && r[|bundleId|] == '-'
    ensures IsDigits(r[|bundleId| + 1..]) && ParseDecimal(r[|bundleId| + 1..]) == uid
  {
    var r := bundleId + "-" + NatToString(uid);
    assert r[|bundleId| + 1..] == NatToString(uid);
    r
  }

  /** Within one bundle, different numbers give different identifiers. */
  lemma {:induction false} GetUidInjective(bundleId: string, m: nat, n: nat)
    requires GetUid(bundleId, m) == GetUid(bundleId, n)
    ensures m == n
  {
    var k := |bundleId| + 1;
    assert GetUid(bundleId, m)[k..] == GetUid(bundleId, n)[k..];
  }

  /** `s.replace('\\' + c, c)`: each backslash that stands before `c` is
      dropped, scanning from the left without overlaps. */
  function ReplaceEscape(s: string, c: char): (r: string)
    ensures |r| <= |s|
    ensures '\\' !in s ==> r == s
  {
    if |s| == 0 then []
    else if |s| >= 2 && s[0] == '\\' && s[1] == c then [c] + ReplaceEscape(s[2..], c)
    else [s[0]] + ReplaceEscape(s[1..], c)
  }

  /** The replacements of `unescape`, one character after another in the order
      the characters are listed. */
  function UnescapeAll(s: string, characters: string): (r: string)
    ensures |r| <= |s|
    ensures '\\' !in s ==> r == s
    decreases |characters|
  {
    if |characters| == 0 then s else UnescapeAll(ReplaceEscape(s, characters[0]), characters[1..])
  }

  /** `unescape(query, characters)`: with no characters, or an empty string of
      them, the characters are `UnescapeCharacters`. */
  method Unescape(query: string, characters: Option<string>) returns (r: string)
    ensures r == UnescapeAll(query, if characters.None? || |characters.value| == 0 then UnescapeCharacters else characters.value)
    ensures |r| <= |query|
    ensures '\\' !in query ==> r == query
  {
    var cs := if characters.None? || |characters.value| == 0 then UnescapeCharacters else characters.value;
    r := query;
    for k := 0 to |cs|
      invariant UnescapeAll(r, cs[k..]) == UnescapeAll(query, cs)
    {
      assert cs[k..][1..] == cs[k + 1..];
      r := ReplaceEscape(r, cs[k]);
    }
    assert cs[|cs|..] == [];
  }

  /** Unescaping with `a` and then with `b` is unescaping with `a + b`. */
  lemma {:induction false} UnescapeAllAppend(s: string, a: string, b: string)
    ensures UnescapeAll(s, a + b) == UnescapeAll(UnescapeAll(s, a), b)
    decreases |a|
  {
    if |a| == 0 {
      assert a + b == b;
    } else {
      assert (a + b)[0] == a[0] && (a + b)[1..] == a[1..] + b;
      UnescapeAllAppend(ReplaceEscape(s, a[0]), a[1..], b);
    }
  }

  /** The order of the characters matters: after `\\` has been unescaped, the
      backslash left over can escape a following `;`. */
  lemma OrderMatters()
    ensures UnescapeAll("\\\\;", "\\;") == ";"
    ensures UnescapeAll("\\\\;", ";\\") == "\\;"
  {
    assert ReplaceEscape("\\\\;", '\\') == "\\;" by {
      assert "\\\\;"[2..] == ";";
      assert ReplaceEscape(";", '\\') == ";";
    }
    assert ReplaceEscape("\\;", ';') == ";" by {
      assert "\\;"[2..] == [];
    }
    assert ReplaceEscape("\\\\;", ';') == "\\;" by {
      assert "\\\\;"[1..] == "\\;";
      assert "\\;"[2..] == [];
    }
    assert ReplaceEscape("\\;", '\\') == "\\;" by {
      assert "\\;"[1..] == ";";
      assert ReplaceEscape(";", '\\') == ";";
    }
  }

  /** What Alfred's escaping produces: a backslash before every character of `cs`. */
  function Escape(s: string, cs: set<char>): (r: string)
    ensures |r| >= |s|
  {
    if |s| == 0 then [] else (if s[0] in cs then ['\\', s[0]] else [s[0]]) + Escape(s[1..], cs)
  }

  lemma {:induction false} EscapeNothing(s: string)
    ensures Escape(s, {}) == s
  {
    if |s| > 0 {
      EscapeNothing(s[1..]);
    }
  }

  /** Dropping the backslashes before `c` undoes the escaping of `c` and leaves
      the escaping of the other characters. */
  lemma {:induction false} ReplaceEscapeOfEscape(s: string, cs: set<char>, c: char)
    requires c in cs && '\\' !in cs
    ensures ReplaceEscape(Escape(s, cs), c) == Escape(s, cs - {c})
  {
    if |s| > 0 {
      var x, rest := s[0], Escape(s[1..], cs);
      ReplaceEscapeOfEscape(s[1..], cs, c);
      if x in cs {
        var e := ['\\', x] + rest;
        assert Escape(s, cs) == e;
        if x == c {
          assert e[2..] == rest;
        } else {
          assert e[1..] == [x] + rest;
          assert ([x] + rest)[1..] == rest;
        }
      } else {
        var e := [x] + rest;
        assert Escape(s, cs) == e && e[1..] == rest;
        assert |rest| > 0 ==> rest[0] != c by {
          if |s[1..]| > 0 {
            assert rest[0] == (if s[1..][0] in cs then '\\' else s[1..][0]);
          }
        }
      }
    }
  }

  /** `unescape` inverts Alfred's escaping of the characters it lists, as long
      as they are distinct and do not include the backslash itself. */
  lemma {:induction false} UnescapeEscape(s: string, characters: string)
    requires '\\' !in characters
    requires forall i, j :: 0 <= i < j < |characters| ==> characters[i] != characters[j]
    ensures UnescapeAll(Escape(s, set c | c in characters), characters) == s
  {
    if |characters| == 0 {
      assert (set c | c in characters) == {};
      EscapeNothing(s);
    } else {
      var cs := set c | c in characters;
      var c0, tail := characters[0], characters[1..];
      ReplaceEscapeOfEscape(s, cs, c0);
      assert cs - {c0} == set c | c in tail by {
        forall x | x in tail
          ensures x != c0
        {
          var j :| 0 <= j < |tail| && tail[j] == x;
          assert characters[j + 1] == x;
        }
      }
      UnescapeEscape(s, tail);
    }
  }

  /** `unescape` with the default characters undoes Alfred's escaping of them. */
  lemma DefaultUnescape(s: string)
    ensures UnescapeAll(Escape(s, {' ', ';', '(', ')'}), UnescapeCharacters) == s
  {
    assert (set c | c in UnescapeCharacters) == {' ', ';', '(', ')'};
    UnescapeEscape(s, UnescapeCharacters);
  }

  /** What `itertools.islice(items, maxresults)` takes from a generator: it
      stops pulling once it has `maxresults` items, so an exception the
      generator raises later is never seen. */
  function Truncated(s: Stream, maxResults: nat): (r: Result<seq<Item>>)
    ensures r.Err? <==> |s.items| < maxResults && s.raised.Some?
    ensures r.Err? ==> r.error == s.raised.value
    ensures r.Ok? ==> |r.value| <= maxResults && |r.value| <= |s.items| && r.value == s.items[..|r.value|]
    ensures r.Ok? ==> |r.value| == if |s.items| < maxResults then |s.items| else maxResults
  {
    if maxResults <= |s.items| then Ok(s.items[..maxResults])
    else if s.raised.Some? then Err(s.raised.value)
    else Ok(s.items)
  }

  /** `xml(items, maxresults)`: the items that become rows, in order; the
      rendering of each row as XML is not modelled. */
  method Xml(s: Stream, maxResults: nat) returns (r: Result<seq<Item>>)
    ensures r == Truncated(s, maxResults)
  {
    var rows: seq<Item> := [];
    var i := 0;
    while i < maxResults
      invariant 0 <= i <= maxResults && i <= |s.items|
      invariant rows == s.items[..i]
    {
      if i == |s.items| {
        if s.raised.Some? {
          return Err(s.raised.value);
        }
        break;
      }
      rows := rows + [s.items[i]];
      i := i + 1;
    }
    assert i == |s.items| ==> s.items[..i] == s.items;
    return Ok(rows);
  }

  /** The word `is_command` looks up: the text before the first space, or, for
      a query without a space, the whole query stripped of whitespace. */
  function CommandWord(query: string): (w: string)
    ensures ' ' !in w
  {
    match SplitOnce(query, ' ')
    case Some((command, _)) => command
    case None =>
      var w := Strip(query);
      assert forall k :: 0 <= k < |w| ==> w[k] in query;
      w
  }

  /** `is_command(query)`: the word is a reserved word, or the workflow has a
      `do_<word>` method among its `attributes`. */
  function IsCommand(query: string, reservedWords: seq<string>, attributes: set<string>): (r: bool)
    ensures ' ' !in query ==> (r <==> Strip(query) in reservedWords || HandlerPrefix + Strip(query) in attributes)
  {
    var command := CommandWord(query);
    command in reservedWords || HandlerPrefix + command in attributes
  }

  /** A command followed by arguments is still a command; the word is not
      stripped, so one leading space makes it a different word. */
  lemma {:induction false} CommandWithArguments(w: string, rest: string, reservedWords: seq<string>, attributes: set<string>)
    requires ' ' !in w
    ensures IsCommand(w + " " + rest, reservedWords, attributes) <==> w in reservedWords || HandlerPrefix + w in attributes
  {
    var q := w + " " + rest;
    assert q[|w|] == ' ';
    assert q[..|w|] == w;
  }

  /** `route_action(action, query)`: the name of the method that handles the
      action, or the `RuntimeError` for an action without a handler. */
  function RouteAction(action: string, attributes: set<string>): (r: Result<string>)
    ensures r.Ok? <==> HandlerPrefix + action in attributes
    ensures r.Ok? ==> (r.value in attributes && |r.value| >= |HandlerPrefix|
                       && r.value[..|HandlerPrefix|] == HandlerPrefix && r.value[|HandlerPrefix|..] == action)
    ensures r.Err? ==> r.error == UnknownAction(action)
  {
    var name := HandlerPrefix + action;
    if name in attributes then Ok(name) else Err(UnknownAction(action))
  }

  /** `message_item(title, message, icon, uid)`: a row that cannot be
      actioned. */
  function MessageItem(bundleId: string, title: string, message: string, icon: Option<string>, uid: nat): Item {
    Item(GetUid(bundleId, uid), Some(""), None, true, title, Some(message), icon)
  }

  /** `warning_item(title, message, uid)`. */
  function WarningItem(bundleId: string, title: string, message: string, uid: nat): Item {
    MessageItem(bundleId, title, message, Some("warning.png"), uid)
  }
}
