/** Bracket-notation paths: parsing, printing, and how they undo each other. A segment is its key; the
    wildcard is the key "*". */
module JsonPathSyntax {
  import opened Options

  datatype PathError =
    | PathEmpty
    | MustStartWithDollar
    | EmptySegment(segment: nat)
    | NoValidSegments
    | InvalidSyntax

  datatype Parse = Ok(segments: seq<string>) | Err(error: PathError)

  const WILD := "*"

  /** A key that can stand between quotes and brackets. */
  predicate ValidKey(key: string) {
    key != "" && '\'' !in key
  }

  function Quoted(key: string): string {
    "['" + key + "']"
  }

  function Bracket(key: string): string {
    if key == WILD then "[*]" else Quoted(key)
  }

  function Brackets(segments: seq<string>): string {
    if segments == [] then "" else Bracket(segments[0]) + Brackets(segments[1..])
  }

  /** newPath. */
  function Printed(segments: seq<string>): string {
    "$" + Brackets(segments)
  }

  function QuotedAll(keys: seq<string>): string {
    if keys == [] then "" else Quoted(keys[0]) + QuotedAll(keys[1..])
  }

  /** ToNestedPath. */
  function Nested(keys: seq<string>): string {
    if keys == [] then "" else "$" + QuotedAll(keys)
  }

  /** How many characters come before the first quote. */
  function Unquoted(s: string): (n: nat)
    ensures n <= |s| && '\'' !in s[..n] && (n < |s| ==> s[n] == '\'')
  {
    if s == "" || s[0] == '\'' then 0 else 1 + Unquoted(s[1..])
  }

  /** A segment at the very start of s: its key and its length. */
  function Match(s: string): (m: Option<(string, nat)>)
    ensures m.Some? ==> ValidKey(m.value.0) && 0 < m.value.1 <= |s|
  {
    if |s| < 3 || s[0] != '[' then None
    else if s[1] == '\'' then
      var n := Unquoted(s[2..]);
      if n > 0 && n + 3 < |s| && s[n + 2] == '\'' && s[n + 3] == ']' then Some((s[2..2 + n], n + 4)) else None
    else if s[1] == '*' && s[2] == ']' then Some((WILD, 3))
    else None
  }

  /** The keys of all segments, scanning from the left and skipping what is not part of one. */
  function Scan(s: string): seq<string>
    decreases |s|
  {
    if s == "" then []
    else
      match Match(s)
      case Some(m) => [m.0] + Scan(s[m.1..])
      case None => Scan(s[1..])
  }

  lemma {:induction false} ScanFindsKeys(s: string)
    ensures forall k :: k in Scan(s) ==> ValidKey(k)
    decreases |s|
  {
    if s != "" {
      match Match(s)
      case Some(m) => ScanFindsKeys(s[m.1..]);
      case None => ScanFindsKeys(s[1..]);
    }
  }

  const EMPTY := "['']"

  /** The place of the first empty segment. */
  function FirstEmpty(s: string): (place: Option<nat>)
    ensures place.Some? ==> place.value < |s| && s[place.value] == '[' && EMPTY <= s[place.value..]
  {
    if s == "" then None
    else if EMPTY <= s then Some(0)
    else match FirstEmpty(s[1..]) case Some(i) => Some(i + 1) case None => None
  }

  function Opened(s: string): nat {
    if s == "" then 0 else Opened(s[..|s| - 1]) + if s[|s| - 1] == '[' then 1 else 0
  }

  function Parsed(path: string): Parse {
    if path == "" then Err(PathEmpty)
    else if !("$[" <= path) then Err(MustStartWithDollar)
    else match FirstEmpty(path)
      case Some(i) => Err(EmptySegment(Opened(path[..i])))
      case None =>
        var keys := Scan(path);
        if keys == [] then Err(NoValidSegments)
        else if Printed(keys) != path then Err(InvalidSyntax)
        else Ok(keys)
  }

  ghost predicate Valid(segments: seq<string>) {
    segments != [] && forall k :: k in segments ==> ValidKey(k)
  }

  /** The scanner reads back what was printed, whatever follows. */
  lemma MatchBracket(key: string, rest: string)
    requires ValidKey(key)
    ensures Match(Bracket(key) + rest) == Some((key, |Bracket(key)|))
  {
    if key == WILD {
      assert (Bracket(key) + rest)[1] == '*';
    } else {
      MatchQuoted(key, rest);
    }
  }

  lemma MatchQuoted(key: string, rest: string)
    requires ValidKey(key)
    ensures Match(Quoted(key) + rest) == Some((key, |Quoted(key)|))
  {
    var s, tail := Quoted(key) + rest, "']" + rest;
    assert s == "['" + (key + tail);
    assert s[2..] == key + tail && s[0] == '[' && s[1] == '\'';
    UnquotedKey(key, tail);
    assert s[2 + |key|..] == tail && "']" <= tail;
    assert s[2..2 + |key|] == key && "['" <= s;
  }

  lemma {:induction false} UnquotedKey(key: string, rest: string)
    requires '\'' !in key && rest != "" && rest[0] == '\''
    ensures Unquoted(key + rest) == |key|
  {
    if key == "" {
      assert key + rest == rest;
    } else {
      assert (key + rest)[1..] == key[1..] + rest;
      UnquotedKey(key[1..], rest);
    }
  }

  lemma {:induction false} ScanBrackets(segments: seq<string>)
    requires forall k :: k in segments ==> ValidKey(k)
    ensures Scan(Brackets(segments)) == segments
  {
    if segments != [] {
      var first, rest := Bracket(segments[0]), Brackets(segments[1..]);
      MatchBracket(segments[0], rest);
      assert (first + rest)[|first|..] == rest;
      ScanBrackets(segments[1..]);
    }
  }

  /** No empty segment begins within a bracket. */
  lemma NoEmptyInBracket(key: string, rest: string, i: nat)
    requires ValidKey(key) && i < |Bracket(key)|
    ensures var s := Bracket(key) + rest; !(i + 2 < |s| && s[i] == '[' && s[i + 1] == '\'' && s[i + 2] == '\'')
  {
    var s := Bracket(key) + rest;
    if key == WILD {
      assert s[..3] == "[*]";
      assert s[0] == '[' && s[1] == '*' && s[2] == ']';
    } else {
      assert forall j :: 0 <= j < |key| ==> Quoted(key)[2 + j] == key[j] && key[j] in key;
      assert Quoted(key)[|key| + 2] == '\'' && Quoted(key)[|key| + 3] == ']';
      assert s[..|key| + 4] == Quoted(key);
    }
  }

  /** No printed path has an empty segment in it. */
  lemma {:induction false} NoEmptySegment(segments: seq<string>, i: nat)
    requires forall k :: k in segments ==> ValidKey(k)
    requires i <= |Brackets(segments)|
    ensures !(EMPTY <= Brackets(segments)[i..])
  {
    if segments != [] {
      var first, rest := Bracket(segments[0]), Brackets(segments[1..]);
      var s := first + rest;
      if i >= |first| {
        assert s[i..] == rest[i - |first|..];
        NoEmptySegment(segments[1..], i - |first|);
      } else {
        NoEmptyInBracket(segments[0], rest, i);
      }
    }
  }

  lemma NoEmptyInPath(segments: seq<string>)
    requires forall k :: k in segments ==> ValidKey(k)
    ensures FirstEmpty(Printed(segments)) == None
  {
    var path := Printed(segments);
    assert path[0] == '$';
    match FirstEmpty(path)
    case None =>
    case Some(i) =>
      if i > 0 {
        assert path[i..] == Brackets(segments)[i - 1..];
        NoEmptySegment(segments, i - 1);
      }
  }

  /** A path parses to these segments exactly when they are keys that can be quoted, at least one, and it
      is what they print as. */
  lemma ParsesWhatPrints(path: string, segments: seq<string>)
    ensures Parsed(path) == Ok(segments) <==> Valid(segments) && path == Printed(segments)
  {
    ScanFindsKeys(path);
    if Valid(segments) && path == Printed(segments) {
      NoEmptyInPath(segments);
      ScanBrackets(segments);
      assert path[1..] == Brackets(segments);
      assert Brackets(segments)[0] == '[';
    }
  }

  /** Paths differ when their segments do. */
  lemma PrintedInjective(a: seq<string>, b: seq<string>)
    requires Valid(a) && Valid(b) && Printed(a) == Printed(b)
    ensures a == b
  {
    ParsesWhatPrints(Printed(a), a);
    ParsesWhatPrints(Printed(a), b);
  }

  lemma {:induction false} QuotedLength(keys: seq<string>)
    ensures |QuotedAll(keys)| >= |Brackets(keys)|
    ensures |QuotedAll(keys)| == |Brackets(keys)| ==> WILD !in keys
    ensures WILD !in keys ==> QuotedAll(keys) == Brackets(keys)
  {
    if keys != [] {
      QuotedLength(keys[1..]);
      assert keys == [keys[0]] + keys[1..];
    }
  }

  /** ToNestedPath yields a path back to the keys exactly when each can be quoted and none is the wildcard. */
  lemma NestedRoundTrip(keys: seq<string>)
    ensures Parsed(Nested(keys)) == Ok(keys) <==> Valid(keys) && WILD !in keys
  {
    ParsesWhatPrints(Nested(keys), keys);
    QuotedLength(keys);
  }

  /** How many segments begin before a place. */
  method CountOpened(path: string, place: nat) returns (segment: nat)
    requires place <= |path|
    ensures segment == Opened(path[..place])
  {
    segment := 0;
    for i := 0 to place
      invariant segment == Opened(path[..i])
    {
      assert path[..i + 1][..i] == path[..i];
      if path[i] == '[' {
        segment := segment + 1;
      }
    }
  }

  /** The match at position i, if there is one: what that means for the scan from there. */
  method MatchAt(path: string, i: nat, ghost keys: seq<string>) returns (m: Option<(string, nat)>)
    requires i < |path|
    ensures m.Some? ==> 0 < m.value.1 <= |path| - i
    ensures keys + Scan(path[i..]) ==
            if m.Some? then (keys + [m.value.0]) + Scan(path[i + m.value.1..]) else keys + Scan(path[i + 1..])
  {
    m := Match(path[i..]);
    ScanStep(path, i, keys, m);
  }

  /** The regular expression's matches, from the left. */
  method FindSegments(path: string) returns (keys: seq<string>)
    ensures keys == Scan(path)
  {
    var i := 0;
    keys := [];
    ghost var all := Scan(path);
    assert path[0..] == path;
    while i < |path|
      invariant i <= |path| && all == keys + Scan(path[i..])
      decreases |path| - i
    {
      var m := MatchAt(path, i, keys);
      if m.Some? {
        keys, i := keys + [m.value.0], i + m.value.1;
      } else {
        i := i + 1;
      }
    }
    assert path[i..] == "";
  }

  /** One match more, or one character skipped. */
  lemma ScanStep(path: string, i: nat, keys: seq<string>, m: Option<(string, nat)>)
    requires i < |path| && m == Match(path[i..])
    ensures keys + Scan(path[i..]) ==
            if m.Some? then (keys + [m.value.0]) + Scan(path[i + m.value.1..]) else keys + Scan(path[i + 1..])
  {
    if m.Some? {
      assert path[i..][m.value.1..] == path[i + m.value.1..];
    } else {
      assert path[i..][1..] == path[i + 1..];
    }
  }

  /** ParsePath. */
  method ParsePath(path: string) returns (r: Parse)
    ensures r == Parsed(path)
  {
    if path == "" {
      return Err(PathEmpty);
    }
    if !("$[" <= path) {
      return Err(MustStartWithDollar);
    }
    var empty := FirstEmpty(path);
    if empty.Some? {
      var segment := CountOpened(path, empty.value);
      return Err(EmptySegment(segment));
    }
    var keys := FindSegments(path);
    if keys == [] {
      return Err(NoValidSegments);
    }
    var reconstructed := NewPath(keys);
    if reconstructed != path {
      return Err(InvalidSyntax);
    }
    return Ok(keys);
  }

  /** newPath. */
  method NewPath(segments: seq<string>) returns (path: string)
    ensures path == Printed(segments)
  {
    var built := "";
    ghost var all := Brackets(segments);
    for i := 0 to |segments|
      invariant all == built + Brackets(segments[i..])
    {
      assert segments[i..][1..] == segments[i + 1..];
      built := built + Bracket(segments[i]);
    }
    path := "$" + built;
  }

  /** ToNestedPath. */
  method ToNestedPath(keys: seq<string>) returns (path: string)
    ensures path == Nested(keys)
  {
    if |keys| == 0 {
      return "";
    }
    path := "$";
    for i := 0 to |keys|
      invariant path + QuotedAll(keys[i..]) == Nested(keys)
    {
      assert keys[i..][1..] == keys[i + 1..];
      path := path + Quoted(keys[i]);
    }
  }
}
