/** What the errors of parsing a path say about the path, in its characters alone. */
module JsonPathErrors {
  import opened Options
  import opened JsonPathSyntax

  /** An empty segment begins at place i. */
  predicate EmptyAt(path: string, i: nat) {
    i + 4 <= |path| && path[i..i + 4] == "['']"
  }

  /** A segment begins at place i: the wildcard, or a key in quotes. */
  ghost predicate SegmentAt(path: string, i: nat) {
    || (i + 3 <= |path| && path[i..i + 3] == "[*]")
    || exists key :: SegmentOf(path, i, key)
  }

  predicate SegmentOf(path: string, i: nat, key: string) {
    key != "" && '\'' !in key && i + |key| + 4 <= |path| && path[i..i + |key| + 4] == "['" + key + "']"
  }

  ghost predicate HasEmpty(path: string) {
    exists i: nat :: EmptyAt(path, i)
  }

  ghost predicate HasSegment(path: string) {
    exists i: nat :: SegmentAt(path, i)
  }

  ghost predicate Printable(path: string) {
    exists segments :: Valid(segments) && Printed(segments) == path
  }

  /** Each error is reported exactly for the paths it is meant for, and in this order: an empty path, one that does
      not begin with a dollar and a bracket, one with an empty segment, one without any segment, and one with
      anything else between its segments. */
  lemma ParseErrors(path: string)
    ensures var r, begins := Parsed(path), |path| >= 2 && path[0] == '$' && path[1] == '[';
            && (r == Err(PathEmpty) <==> path == "")
            && (r == Err(MustStartWithDollar) <==> path != "" && !begins)
            && (r.Err? && r.error.EmptySegment? <==> begins && HasEmpty(path))
            && (r == Err(NoValidSegments) <==> begins && !HasEmpty(path) && !HasSegment(path))
            && (r == Err(InvalidSyntax) <==> begins && !HasEmpty(path) && HasSegment(path) && !Printable(path))
            && (r.Ok? <==> Printable(path))
  {
    EmptyPlaces(path);
    NothingScanned(path);
    PrintableParses(path);
  }

  lemma PrintableParses(path: string)
    ensures Parsed(path).Ok? <==> Printable(path)
  {
    if Parsed(path).Ok? {
      ParsesWhatPrints(path, Parsed(path).segments);
    }
    if segments :| Valid(segments) && Printed(segments) == path {
      ParsesWhatPrints(path, segments);
    }
  }

  /** An empty segment is reported under the number of opening brackets before the first one. */
  lemma EmptySegmentNumber(path: string, i: nat)
    requires "$[" <= path && EmptyAt(path, i) && forall j: nat :: j < i ==> !EmptyAt(path, j)
    ensures Parsed(path) == Err(EmptySegment(multiset(path[..i])['[']))
  {
    FirstPlace(path, i);
    OpenedIs(path[..i]);
  }

  /** FirstEmpty finds the first place. */
  lemma {:induction false} FirstPlace(s: string, i: nat)
    requires EmptyAt(s, i)
    ensures FirstEmpty(s).Some? && FirstEmpty(s).value <= i && EmptyAt(s, FirstEmpty(s).value)
  {
    if EmptyAt(s, 0) {
      assert EMPTY <= s;
    } else {
      assert s[1..][i - 1..i + 3] == s[i..i + 4];
      FirstPlace(s[1..], i - 1);
      var j := FirstEmpty(s[1..]).value;
      assert s[1..][j..j + 4] == s[j + 1..j + 5];
      assert !(EMPTY <= s);
    }
  }

  lemma EmptyPlaces(path: string)
    ensures FirstEmpty(path).Some? <==> HasEmpty(path)
  {
    if FirstEmpty(path).Some? {
      var i := FirstEmpty(path).value;
      assert path[i..][..4] == path[i..i + 4];
      assert EmptyAt(path, i);
    }
    if i: nat :| EmptyAt(path, i) {
      FirstPlace(path, i);
    }
  }

  lemma {:induction false} OpenedIs(s: string)
    ensures Opened(s) == multiset(s)['[']
  {
    if s != "" {
      OpenedIs(s[..|s| - 1]);
      assert s == s[..|s| - 1] + [s[|s| - 1]];
    }
  }

  /** A match at the start of s is a segment there, and the other way round. */
  lemma MatchIsSegment(s: string)
    ensures Match(s).Some? <==> SegmentAt(s, 0)
  {
    if Match(s).Some? && s[1] == '\'' {
      var key := Match(s).value.0;
      var n := Unquoted(s[2..]);
      assert s[2..2 + n] == key && |key| == n;
      assert s[..n + 4] == "['" + key + "']";
      assert SegmentOf(s, 0, key);
    }
    if |s| >= 3 && s[..3] == "[*]" {
      assert s[0] == '[' && s[1] == '*' && s[2] == ']';
    }
    if key :| SegmentOf(s, 0, key) {
      MatchQuoted(key, s[|key| + 4..]);
      assert Quoted(key) + s[|key| + 4..] == s;
    }
  }

  lemma {:induction false} NothingScanned(s: string)
    ensures Scan(s) == [] <==> !HasSegment(s)
  {
    if s != "" {
      MatchIsSegment(s);
      NothingScanned(s[1..]);
      if i: nat :| SegmentAt(s[1..], i) {
        Shifted(s, i + 1);
        assert SegmentAt(s, i + 1);
      }
      if i: nat :| SegmentAt(s, i) {
        if i > 0 {
          Shifted(s, i);
        } else {
          assert SegmentAt(s, 0);
        }
      }
    }
  }

  lemma ShiftedOf(s: string, k: nat, key: string)
    requires s != ""
    ensures SegmentOf(s, k + 1, key) <==> SegmentOf(s[1..], k, key)
  {
    var n := |key| + 4;
    if k + 1 + n <= |s| {
      assert s[k + 1..k + 1 + n] == s[1..][k..k + n];
    }
  }

  lemma Shifted(s: string, i: nat)
    requires 0 < i && s != ""
    ensures SegmentAt(s, i) <==> SegmentAt(s[1..], i - 1)
  {
    var t, k := s[1..], i - 1;
    if i + 3 <= |s| {
      assert s[i..i + 3] == t[k..k + 3];
    }
    if key :| SegmentOf(s, i, key) {
      ShiftedOf(s, k, key);
    }
    if key :| SegmentOf(t, k, key) {
      ShiftedOf(s, k, key);
    }
  }

  /** The notation itself, on one path. */
  lemma OnePath()
    ensures Printed(["a", "*", "b"]) == "$['a'][*]['b']"
    ensures Nested(["a", "*"]) == "$['a']['*']" && Nested([]) == ""
  {
    assert ["a", "*", "b"][1..] == ["*", "b"] && ["*", "b"][1..] == ["b"] && ["b"][1..] == [];
    assert Brackets(["b"]) == "['b']" && Brackets(["*", "b"]) == "[*]['b']";
    assert ["a", "*"][1..] == ["*"] && ["*"][1..] == [];
    assert QuotedAll(["*"]) == "['*']";
  }
}
