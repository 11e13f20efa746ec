/** What repeated calls of getTokenFromBuffer with one-byte separators make of a
    buffer: its words. */
module Words {
  import opened Tokens

  ghost predicate Single(S: set<string>) {
    forall p :: p in S ==> |p| == 1
  }

  /** The tokens that getTokenFromBuffer returns until it returns 0, and what the
      buffer then still holds. */
  ghost function SplitAll(s: string, S: set<string>): (r: (seq<string>, string))
    requires Usable(S)
    ensures SepRest(r.1, S)
    decreases |s|
  {
    var c := Search(s, S);
    if c.len == 0 then ([], s)
    else
      var (tokens, rest) := SplitAll(s[c.full..], S);
      ([Token(s, c)] + tokens, rest)
  }

  /** Nothing but separators. */
  ghost predicate SepRest(s: string, S: set<string>)
    requires Usable(S)
  {
    SkipSeps(s, 0, S) == |s|
  }

  predicate IsSep(c: char, S: set<string>) {
    [c] in S
  }

  function WordLength(s: string, S: set<string>): (n: nat)
    ensures n <= |s| && (forall i :: 0 <= i < n ==> !IsSep(s[i], S))
    ensures n < |s| ==> IsSep(s[n], S)
  {
    if s == "" || IsSep(s[0], S) then 0 else 1 + WordLength(s[1..], S)
  }

  /** The maximal separator-free fields, the unterminated last one included. */
  function Fields(s: string, S: set<string>): seq<string>
    decreases |s|
  {
    if s == "" then []
    else if IsSep(s[0], S) then Fields(s[1..], S)
    else
      var n := WordLength(s, S);
      [s[..n]] + Fields(s[n..], S)
  }

  lemma SingleAt(s: string, i: nat, S: set<string>)
    requires Single(S)
    ensures SepAt(s, i, S) == if i < |s| && IsSep(s[i], S) then [s[i]] else ""
  {
    var r := SepAt(s, i, S);
    if r != "" {
      assert r == s[i..i + 1] == [s[i]];
    } else if i < |s| && [s[i]] in S {
      assert s[i..i + 1] == [s[i]];
      assert MatchAt(s, i, [s[i]]);
    }
  }

  lemma FirstField(s: string, S: set<string>)
    requires Usable(S) && Single(S) && s != "" && !IsSep(s[0], S)
    ensures var n := WordLength(s, S);
      n > 0 && Search(s, S) == if n < |s| then Cut(true, 0, n, n + 1) else Cut(false, 0, n, n)
  {
    var n := WordLength(s, S);
    forall i | 0 <= i <= n ensures SepAt(s, i, S) == if i < n || n == |s| then "" else [s[n]] {
      SingleAt(s, i, S);
    }
    FindOfClear(s, 0, n, S);
  }

  lemma SplitAfterSeparator(s: string, S: set<string>)
    requires Usable(S) && SepAt(s, 0, S) != ""
    ensures var n := |SepAt(s, 0, S)|; SplitAll(s, S).0 == SplitAll(s[n..], S).0
  {
    hide Search, SepAt;
    var n := |SepAt(s, 0, S)|;
    SearchAfterSeparator(s, S);
    var c, d := Search(s, S), Search(s[n..], S);
    assert s[n..][d.full..] == s[c.full..] && Token(s[n..], d) == Token(s, c);
  }

  lemma FieldsStep(s: string, S: set<string>)
    requires s != "" && !IsSep(s[0], S)
    ensures var n := WordLength(s, S);
      Fields(s, S) == [s[..n]] + if n < |s| then Fields(s[n + 1..], S) else []
  {
  }

  /** The words are exactly the fields. */
  lemma {:induction false} SplitIsFields(s: string, S: set<string>)
    requires Usable(S) && Single(S)
    ensures SplitAll(s, S).0 == Fields(s, S)
    decreases |s|
  {
    hide Search, SepAt, WordLength;
    if s != "" {
      SingleAt(s, 0, S);
      if IsSep(s[0], S) {
        SplitAfterSeparator(s, S);
        SplitIsFields(s[1..], S);
      } else {
        hide Fields;
        var c := Search(s, S);
        FirstField(s, S);
        FieldsStep(s, S);
        SplitIsFields(s[c.full..], S);
        assert Fields("", S) == [] by {
          FieldsOfNothing(S);
        }
      }
    }
  }

  lemma FieldsOfNothing(S: set<string>)
    ensures Fields("", S) == []
  {
  }
}
