/** What the tokenizer cuts out of a byte string, for a set of separators. */
module Tokens {
  import opened Bytes

  /** No separator is empty: an empty one matches everywhere and the scan for
      leading separators would never move. */
  ghost predicate Usable(S: set<string>) {
    "" !in S
  }

  predicate MatchAt(s: string, i: nat, p: string) {
    i + |p| <= |s| && s[i..i + |p|] == p
  }

  /** A match begins with the separator's first byte. */
  lemma MatchFirst(s: string, i: nat, p: string)
    requires p != ""
    ensures MatchAt(s, i, p) ==> i < |s| && s[i] == p[0]
  {
  }

  ghost predicate IsLongest(s: string, i: nat, S: set<string>, r: string) {
    && (r == "" || (r in S && MatchAt(s, i, r)))
    && forall q {:trigger MatchAt(s, i, q)} :: q in S && MatchAt(s, i, q) ==> |q| <= |r|
  }

  lemma LongestExists(s: string, i: nat, S: set<string>)
    ensures exists r :: IsLongest(s, i, S, r)
  {
    if S == {} {
      assert IsLongest(s, i, S, "");
    } else {
      var p :| p in S;
      LongestExists(s, i, S - {p});
      var r :| IsLongest(s, i, S - {p}, r);
      if MatchAt(s, i, p) && |p| > |r| {
        assert IsLongest(s, i, S, p);
      } else {
        assert IsLongest(s, i, S, r);
      }
    }
  }

  /** The longest separator at position `i`, or "" when none matches there. */
  ghost function SepAt(s: string, i: nat, S: set<string>): (r: string)
    ensures IsLongest(s, i, S, r)
  {
    LongestExists(s, i, S);
    var r :| IsLongest(s, i, S, r);
    r
  }

  /** Two separators of one length that match at one place are the same one, so
      the order of the separators never matters. */
  lemma LongestUnique(s: string, i: nat, S: set<string>, r: string)
    requires IsLongest(s, i, S, r)
    ensures SepAt(s, i, S) == r
  {
  }

  /** Where the scan for leading separators that starts at `i` ends. */
  ghost function SkipSeps(s: string, i: nat, S: set<string>): (r: nat)
    requires i <= |s|
    ensures i <= r <= |s|
    ensures SepAt(s, r, S) == ""
    decreases |s| - i
  {
    if SepAt(s, i, S) == "" then i else SkipSeps(s, i + |SepAt(s, i, S)|, S)
  }

  /** First position from `j` on where a separator matches, or the length. */
  ghost function FindSep(s: string, j: nat, S: set<string>): (r: nat)
    requires j <= |s|
    ensures j <= r <= |s|
    ensures forall k :: j <= k < r ==> SepAt(s, k, S) == ""
    ensures r < |s| ==> SepAt(s, r, S) != ""
    decreases |s| - j
  {
    if j == |s| || SepAt(s, j, S) != "" then j else FindSep(s, j + 1, S)
  }

  /** The three lengths and the flag that a search reports: the token is the
      `len` bytes from `start`, and `full` bytes are consumed with it. */
  datatype Cut = Cut(found: bool, start: nat, len: nat, full: nat)

  ghost function Search(s: string, S: set<string>): (c: Cut)
    requires Usable(S)
    ensures c.start + c.len <= c.full <= |s|
    ensures c.found ==> 1 <= c.len && c.start + c.len < c.full
    ensures !c.found ==> c.full == c.start + c.len == |s|
  {
    var start := SkipSeps(s, 0, S);
    var j := FindSep(s, start, S);
    if j < |s| then Cut(true, start, j - start, j + |SepAt(s, j, S)|)
    else Cut(false, start, |s| - start, |s|)
  }

  ghost function Token(s: string, c: Cut): string
    requires c.start + c.len <= |s|
  {
    s[c.start..c.start + c.len]
  }

  // ----- a description of the cut that mentions no scan

  /** `parts` are separators, laid end to end from `i` to `j`, each the longest
      one at its place. */
  ghost predicate SeparatorRun(s: string, i: nat, j: nat, parts: seq<string>, S: set<string>)
    decreases |parts|
  {
    if parts == [] then i == j
    else parts[0] != "" && IsLongest(s, i, S, parts[0]) && SeparatorRun(s, i + |parts[0]|, j, parts[1..], S)
  }

  /** The buffer is (leading separators)(token)(one separator or nothing)(rest)
      and no separator matches anywhere inside the token. */
  ghost predicate IsCut(s: string, S: set<string>, parts: seq<string>, sep: string, c: Cut) {
    && c.start + c.len <= |s|
    && SeparatorRun(s, 0, c.start, parts, S)
    && (forall k, p :: c.start <= k < c.start + c.len && p in S ==> !MatchAt(s, k, p))
    && IsLongest(s, c.start + c.len, S, sep)
    && c.full == c.start + c.len + |sep|
    && c.found == (sep != "")
    && (!c.found ==> c.full == |s|)
    && (c.found ==> 0 < c.len)
  }

  lemma RunOfSkip(s: string, i: nat, S: set<string>) returns (parts: seq<string>)
    requires Usable(S) && i <= |s|
    ensures SeparatorRun(s, i, SkipSeps(s, i, S), parts, S)
    decreases |s| - i
  {
    var p := SepAt(s, i, S);
    if p == "" {
      parts := [];
    } else {
      var rest := RunOfSkip(s, i + |p|, S);
      parts := [p] + rest;
      assert parts[1..] == rest;
    }
  }

  lemma {:induction false} SkipOfRun(s: string, i: nat, j: nat, parts: seq<string>, S: set<string>)
    requires Usable(S) && i <= |s| && SeparatorRun(s, i, j, parts, S)
    requires j <= |s| && SepAt(s, j, S) == ""
    ensures SkipSeps(s, i, S) == j
    decreases |parts|
  {
    if parts != [] {
      LongestUnique(s, i, S, parts[0]);
      SkipOfRun(s, i + |parts[0]|, j, parts[1..], S);
    }
  }

  lemma FindOfClear(s: string, i: nat, j: nat, S: set<string>)
    requires i <= j <= |s|
    requires forall k :: i <= k < j ==> SepAt(s, k, S) == ""
    requires j == |s| || SepAt(s, j, S) != ""
    ensures FindSep(s, i, S) == j
    decreases j - i
  {
  }

  lemma NothingAt(s: string, k: nat, S: set<string>)
    requires Usable(S)
    ensures SepAt(s, k, S) == "" <==> forall p :: p in S ==> !MatchAt(s, k, p)
  {
  }

  lemma NothingPastEnd(s: string, k: nat, S: set<string>)
    requires Usable(S) && |s| <= k
    ensures SepAt(s, k, S) == ""
  {
  }

  /** The search result satisfies the description. */
  lemma SearchIsCut(s: string, S: set<string>) returns (parts: seq<string>, sep: string)
    requires Usable(S)
    ensures IsCut(s, S, parts, sep, Search(s, S))
  {
    var c := Search(s, S);
    parts := RunOfSkip(s, 0, S);
    sep := SepAt(s, c.start + c.len, S);
    if !c.found {
      NothingPastEnd(s, |s|, S);
    }
    forall k, p | c.start <= k < c.start + c.len && p in S ensures !MatchAt(s, k, p) {
      assert SepAt(s, k, S) == "";
      NothingAt(s, k, S);
    }
  }

  /** ... and nothing else does: exact decomposition, the token free of
      separators, every separator the longest at its place, fix the result. */
  lemma CutIsSearch(s: string, S: set<string>, parts: seq<string>, sep: string, c: Cut)
    requires Usable(S) && IsCut(s, S, parts, sep, c)
    ensures c == Search(s, S)
  {
    var j := c.start + c.len;
    LongestUnique(s, j, S, sep);
    forall k | c.start <= k < j ensures SepAt(s, k, S) == "" {
      NothingAt(s, k, S);
    }
    if c.len == 0 {
      NothingPastEnd(s, |s|, S);
    }
    SkipOfRun(s, 0, c.start, parts, S);
    FindOfClear(s, c.start, j, S);
  }

  /** Conservation, and progress: a found token is not empty and takes at least
      two bytes with it. */
  lemma SearchConserves(s: string, S: set<string>) returns (lead: string, sep: string)
    requires Usable(S)
    ensures var c := Search(s, S);
      s == lead + Token(s, c) + sep + s[c.full..] && (c.found ==> sep in S && c.full >= 2 && c.len >= 1)
  {
    var c := Search(s, S);
    lead := s[..c.start];
    sep := s[c.start + c.len..c.full];
    assert s == lead + Token(s, c) + sep + s[c.full..];
    if c.found {
      assert sep == SepAt(s, c.start + c.len, S);
    }
  }

  // ----- searching a shifted string

  lemma MatchShift(s: string, n: nat, i: nat, p: string)
    requires n <= |s|
    ensures MatchAt(s[n..], i, p) == MatchAt(s, n + i, p)
  {
  }

  lemma SepShift(s: string, n: nat, i: nat, S: set<string>)
    requires n <= |s|
    ensures SepAt(s[n..], i, S) == SepAt(s, n + i, S)
  {
    var r := SepAt(s[n..], i, S);
    MatchShift(s, n, i, r);
    forall q | q in S && MatchAt(s, n + i, q) ensures |q| <= |r| {
      MatchShift(s, n, i, q);
    }
    LongestUnique(s, n + i, S, r);
  }

  lemma {:induction false} SkipShift(s: string, n: nat, i: nat, S: set<string>)
    requires n + i <= |s|
    ensures SkipSeps(s, n + i, S) == n + SkipSeps(s[n..], i, S)
    decreases |s| - i
  {
    SepShift(s, n, i, S);
    var p := SepAt(s, n + i, S);
    if p != "" {
      assert n + i + |p| <= |s|;
      SkipShift(s, n, i + |p|, S);
      assert n + i + |p| == n + (i + |p|);
    }
  }

  lemma FindShift(s: string, n: nat, i: nat, S: set<string>)
    requires n + i <= |s|
    ensures FindSep(s, n + i, S) == n + FindSep(s[n..], i, S)
  {
    var j := FindSep(s[n..], i, S);
    forall k | n + i <= k < n + j ensures SepAt(s, k, S) == "" {
      SepShift(s, n, k - n, S);
      assert SepAt(s[n..], k - n, S) == "";
    }
    SepShift(s, n, j, S);
    FindOfClear(s, n + i, n + j, S);
  }

  /** A separator at the front is skipped and changes nothing else. */
  lemma SearchAfterSeparator(s: string, S: set<string>)
    requires Usable(S) && SepAt(s, 0, S) != ""
    ensures var n := |SepAt(s, 0, S)|; var c := Search(s[n..], S);
      Search(s, S) == c.(start := c.start + n, full := c.full + n)
  {
    var n := |SepAt(s, 0, S)|;
    SkipShift(s, n, 0, S);
    var start := SkipSeps(s[n..], 0, S);
    assert SkipSeps(s, 0, S) == SkipSeps(s, n, S) == n + start;
    FindShift(s, n, start, S);
    SepShift(s, n, FindSep(s[n..], start, S), S);
  }

  // ----- stability under more input

  /** No separator occurs inside a proper prefix of a separator. */
  ghost predicate PrefixClean(S: set<string>) {
    forall p, q, k: nat :: p in S && q in S && k + |p| < |q| ==> !MatchAt(q, k, p)
  }

  lemma MatchExtends(b: string, x: string, i: nat, p: string)
    ensures MatchAt(b, i, p) ==> MatchAt(b + x, i, p)
    ensures i + |p| <= |b| && MatchAt(b + x, i, p) ==> MatchAt(b, i, p)
  {
  }

  /** If a separator ends inside `b` at or after `i`, appending cannot change
      what matches at `i`. */
  lemma SepStable(b: string, x: string, i: nat, j: nat, p: string, S: set<string>)
    requires Usable(S) && PrefixClean(S)
    requires i <= j && p in S && MatchAt(b, j, p)
    ensures SepAt(b + x, i, S) == SepAt(b, i, S)
  {
    var r := SepAt(b, i, S);
    MatchExtends(b, x, i, r);
    forall q | q in S && MatchAt(b + x, i, q) ensures |q| <= |r| {
      MatchExtends(b, x, i, q);
      if |b| < i + |q| {
        // q reaches past b, so p lies inside a proper prefix of q
        assert q == (b + x)[i..i + |q|];
        forall m | 0 <= m < |p| ensures q[j - i + m] == p[m] {
          assert b[j..j + |p|][m] == b[j + m] == (b + x)[j + m];
        }
        assert MatchAt(q, j - i, p);
      }
    }
    LongestUnique(b + x, i, S, r);
  }

  lemma {:induction false} SkipStable(b: string, x: string, i: nat, j: nat, p: string, S: set<string>)
    requires Usable(S) && PrefixClean(S)
    requires i <= |b| && SkipSeps(b, i, S) <= j && p in S && MatchAt(b, j, p)
    ensures SkipSeps(b + x, i, S) == SkipSeps(b, i, S)
    decreases |b| - i
  {
    SepStable(b, x, i, j, p, S);
    if SepAt(b, i, S) != "" {
      SkipStable(b, x, i + |SepAt(b, i, S)|, j, p, S);
    }
  }

  /** A successful search gives the same answer whatever arrives later. */
  lemma StableUnderAppend(b: string, x: string, S: set<string>)
    requires Usable(S) && PrefixClean(S)
    requires Search(b, S).found
    ensures Search(b + x, S) == Search(b, S)
  {
    var c := Search(b, S);
    var j := c.start + c.len;
    var p := SepAt(b, j, S);
    SkipStable(b, x, 0, j, p, S);
    forall k | c.start <= k <= j ensures SepAt(b + x, k, S) == SepAt(b, k, S) {
      SepStable(b, x, k, j, p, S);
    }
    forall k | c.start <= k < j ensures SepAt(b + x, k, S) == "" {
      assert SepAt(b, k, S) == "";
    }
    FindOfClear(b + x, c.start, j, S);
  }

  /** Nor does it matter what is cut off behind the consumed bytes. */
  lemma SearchTruncated(s: string, n: nat, S: set<string>)
    requires Usable(S) && Search(s, S).found && Search(s, S).full <= n <= |s|
    ensures Search(s[..n], S) == Search(s, S)
  {
    var c := Search(s, S);
    var b := s[..n];
    assert b + s[n..] == s;
    SkipTruncated(s, n, 0, S);
    forall k | c.start <= k <= c.start + c.len ensures SepAt(b, k, S) == SepAt(s, k, S) {
      SepTruncated(s, n, k, S);
    }
    FindOfClear(b, c.start, c.start + c.len, S);
  }

  lemma SepTruncated(s: string, n: nat, i: nat, S: set<string>)
    requires n <= |s| && i + |SepAt(s, i, S)| <= n
    ensures SepAt(s[..n], i, S) == SepAt(s, i, S)
  {
    var b, r := s[..n], SepAt(s, i, S);
    assert b + s[n..] == s;
    MatchExtends(b, s[n..], i, r);
    forall q | q in S && MatchAt(b, i, q) ensures |q| <= |r| {
      MatchExtends(b, s[n..], i, q);
    }
    LongestUnique(b, i, S, r);
  }

  lemma {:induction false} SkipTruncated(s: string, n: nat, i: nat, S: set<string>)
    requires i <= |s| && SkipSeps(s, i, S) <= n <= |s|
    ensures SkipSeps(s[..n], i, S) == SkipSeps(s, i, S)
    decreases |s| - i
  {
    SepTruncated(s, n, i, S);
    if SepAt(s, i, S) != "" {
      SkipTruncated(s, n, i + |SepAt(s, i, S)|, S);
    }
  }

  /** An unclean set is always caught out by some input. `a` is any byte that
      starts no separator. */
  lemma UncleanIsUnstable(S: set<string>, a: char, p: string, q: string, k: nat)
    returns (b: string, x: string)
    requires Usable(S)
    requires forall r :: r in S ==> r[0] != a
    requires p in S && q in S && k + |p| < |q| && MatchAt(q, k, p)
    ensures Search(b, S).found && Search(b + x, S) != Search(b, S)
  {
    var n := |q| - 1;
    b, x := [a] + q[..n], q[n..];
    assert b + x == [a] + q;
    NothingAt(b, 0, S);
    NothingAt(b + x, 0, S);
    // b alone: the separator p is found, at 1 + k at the latest
    assert b[1 + k..1 + k + |p|] == q[k..k + |p|];
    assert MatchAt(b, 1 + k, p);
    NothingAt(b, 1 + k, S);
    assert SkipSeps(b, 0, S) == 0;
    // with q complete, q itself (or a longer one) is found right at 1
    assert (b + x)[1..1 + |q|] == q;
    assert MatchAt(b + x, 1, q);
    assert |SepAt(b + x, 1, S)| >= |q|;
    FindOfClear(b + x, 0, 1, S);
    assert Search(b + x, S).full >= 1 + |q|;
    assert Search(b, S).full <= |b| == |q|;
  }

  /** Exactly the clean sets give answers that later input never changes. */
  lemma StableIffPrefixClean(S: set<string>, a: char)
    requires Usable(S)
    requires forall r :: r in S ==> r[0] != a
    ensures PrefixClean(S) <==>
      forall b, x :: Search(b, S).found ==> Search(b + x, S) == Search(b, S)
  {
    if PrefixClean(S) {
      forall b, x | Search(b, S).found ensures Search(b + x, S) == Search(b, S) {
        StableUnderAppend(b, x, S);
      }
    } else {
      var p, q, k: nat :| p in S && q in S && k + |p| < |q| && MatchAt(q, k, p);
      var b, x := UncleanIsUnstable(S, a, p, q, k);
      assert !(Search(b, S).found ==> Search(b + x, S) == Search(b, S));
    }
  }

  // ----- the separator sets the program uses

  const LINE_ENDS: set<string> := {"\r\n", "\n"}
  const BLANKS: set<string> := {" ", "\t"}

  lemma LineEndsClean()
    ensures Usable(LINE_ENDS) && PrefixClean(LINE_ENDS)
  {
    forall p, q, k: nat | p in LINE_ENDS && q in LINE_ENDS && k + |p| < |q| ensures !MatchAt(q, k, p) {
      if q == "\r\n" {
        assert k == 0 && p == "\n";
        assert q[0..1][0] == '\r';
      }
    }
  }

  lemma BlanksClean()
    ensures Usable(BLANKS) && PrefixClean(BLANKS)
  {
  }

  lemma LineEndAt(s: string, i: nat)
    ensures SepAt(s, i, LINE_ENDS) ==
      if i < |s| && s[i] == LF then "\n"
      else if i + 1 < |s| && s[i] == CR && s[i + 1] == LF then "\r\n"
      else ""
  {
    var r := if i < |s| && s[i] == LF then "\n"
      else if i + 1 < |s| && s[i] == CR && s[i + 1] == LF then "\r\n"
      else "";
    if i < |s| {
      assert s[i..i + 1] == [s[i]];
    }
    if i + 1 < |s| {
      assert s[i..i + 2] == [s[i], s[i + 1]];
    }
    assert MatchAt(s, i, "\n") <==> r == "\n";
    assert MatchAt(s, i, "\r\n") <==> r == "\r\n" by {
      if MatchAt(s, i, "\r\n") {
        assert s[i] == s[i..i + 2][0] && s[i + 1] == s[i..i + 2][1];
      }
    }
    LongestUnique(s, i, LINE_ENDS, r);
  }

  // ----- substring search

  /** What searchString answers. */
  ghost predicate Mentions(s: string, S: set<string>)
    requires Usable(S)
  {
    var c := Search(s, S);
    c.found || c.start != 0
  }

  /** It is an exact substring test. */
  lemma MentionsIffOccurs(s: string, S: set<string>)
    requires Usable(S)
    ensures Mentions(s, S) <==> exists p, k: nat :: p in S && MatchAt(s, k, p)
  {
    var c := Search(s, S);
    if Mentions(s, S) {
      var k := if c.found then c.start + c.len else 0;
      var p := SepAt(s, k, S);
      assert p in S && MatchAt(s, k, p);
    } else {
      forall p, k: nat | p in S ensures !MatchAt(s, k, p) {
        if k < |s| {
          assert SepAt(s, k, S) == "";
        } else {
          NothingPastEnd(s, k, S);
        }
        NothingAt(s, k, S);
      }
    }
  }
}
