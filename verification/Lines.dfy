/** The lines of a byte stream: what repeated searches cut out of it, and a
    reference definition that knows no buffer and no search. */
module Lines {
  import opened Bytes
  import opened Tokens

  /** The tokens a drain loop takes and the bytes it leaves behind. */
  datatype Drained = Drained(tokens: seq<string>, rest: string)

  ghost function DrainBy(s: string, S: set<string>): (d: Drained)
    requires Usable(S)
    ensures |d.rest| <= |s|
    ensures !Search(s, S).found ==> d == Drained([], s)
    ensures !Search(d.rest, S).found
    decreases |s|
  {
    var c := Search(s, S);
    if !c.found then Drained([], s)
    else
      var d := DrainBy(s[c.full..], S);
      Drained([Token(s, c)] + d.tokens, d.rest)
  }

  ghost function Drain(s: string): (d: Drained)
    ensures |d.rest| <= |s|
  {
    DrainBy(s, LINE_ENDS)
  }

  lemma DrainStep(s: string)
    ensures Usable(LINE_ENDS)
    ensures var c := Search(s, LINE_ENDS);
      Drain(s) == if c.found then Drained([Token(s, c)] + Drain(s[c.full..]).tokens, Drain(s[c.full..]).rest)
        else Drained([], s)
  {
  }

  // ----- chunk composition

  /** Draining what has arrived and draining again when more arrives is the same
      as draining everything at once. */
  lemma {:induction false} DrainByAppend(b: string, x: string, S: set<string>)
    requires Usable(S) && PrefixClean(S)
    ensures DrainBy(b + x, S).tokens == DrainBy(b, S).tokens + DrainBy(DrainBy(b, S).rest + x, S).tokens
    ensures DrainBy(b + x, S).rest == DrainBy(DrainBy(b, S).rest + x, S).rest
    decreases |b|
  {
    hide Search;
    var c := Search(b, S);
    if c.found {
      StableUnderAppend(b, x, S);
      assert (b + x)[c.full..] == b[c.full..] + x;
      assert Token(b + x, c) == Token(b, c);
      DrainByAppend(b[c.full..], x, S);
    }
  }

  lemma DrainAppend(b: string, x: string)
    ensures Drain(b + x).tokens == Drain(b).tokens + Drain(Drain(b).rest + x).tokens
    ensures Drain(b + x).rest == Drain(Drain(b).rest + x).rest
  {
    LineEndsClean();
    DrainByAppend(b, x, LINE_ENDS);
  }

  // ----- the reference definition

  /** The pieces that a line feed ends; what follows the last one is not a line. */
  function RawLines(s: string): seq<string>
    decreases |s|
  {
    var k := IndexOf(s, LF);
    if k == |s| then [] else [s[..k]] + RawLines(s[k + 1..])
  }

  /** Drops one trailing carriage return. */
  function Chomp(line: string): string {
    if EndsWith(line, CR) then line[..|line| - 1] else line
  }

  /** Chomps every line and drops those that are then empty. */
  function Proper(raw: seq<string>): seq<string> {
    if raw == [] then []
    else
      var line := Chomp(raw[0]);
      (if line == "" then [] else [line]) + Proper(raw[1..])
  }

  function LinesOf(s: string): seq<string> {
    Proper(RawLines(s))
  }

  lemma NoLineFeedNoLine(s: string)
    requires LF !in s
    ensures Drain(s) == Drained([], s) && LinesOf(s) == []
  {
    var c := Search(s, LINE_ENDS);
    LineEndAt(s, c.start + c.len);
    assert forall i :: 0 <= i < |s| ==> s[i] in s;
    assert !c.found;
  }

  /** A drain past a separator at the front yields the same tokens. */
  lemma DrainAfterSeparator(s: string, S: set<string>)
    requires Usable(S) && SepAt(s, 0, S) != ""
    ensures DrainBy(s, S).tokens == DrainBy(s[|SepAt(s, 0, S)|..], S).tokens
  {
    hide Search, SepAt;
    var n := |SepAt(s, 0, S)|;
    var t := s[n..];
    SearchAfterSeparator(s, S);
    var c := Search(t, S);
    if c.found {
      assert s[n + c.full..] == t[c.full..];
      assert s[n + c.start..n + c.start + c.len] == t[c.start..c.start + c.len];
    }
  }

  /** A non-empty first line is found as it stands. */
  lemma FirstLineFound(s: string)
    requires LF in s
    requires Chomp(s[..IndexOf(s, LF)]) != ""
    ensures var k := IndexOf(s, LF); var line := Chomp(s[..k]);
      Search(s, LINE_ENDS) == Cut(true, 0, |line|, k + 1) && line == s[..|line|]
  {
    hide IndexOf, SepAt;
    var k := IndexOf(s, LF);
    var line := Chomp(s[..k]);
    forall i | 0 <= i < k ensures s[i] != LF {
      assert s[..k][i] == s[i];
    }
    forall i | 0 <= i <= |line| ensures SepAt(s, i, LINE_ENDS) ==
      if i < |line| then "" else if |line| == k then "\n" else "\r\n"
    {
      LineEndAt(s, i);
    }
    FindOfClear(s, 0, |line|, LINE_ENDS);
  }

  lemma LinesStep(s: string)
    requires LF in s
    ensures var k := IndexOf(s, LF); var line := Chomp(s[..k]);
      LinesOf(s) == (if line == "" then [] else [line]) + LinesOf(s[k + 1..])
  {
  }

  lemma EmptyLineAt(s: string)
    requires LF in s && Chomp(s[..IndexOf(s, LF)]) == ""
    ensures |SepAt(s, 0, LINE_ENDS)| == IndexOf(s, LF) + 1
  {
    hide IndexOf, SepAt;
    var k := IndexOf(s, LF);
    LineEndAt(s, 0);
    assert k == 1 ==> s[..k][0] == s[0];
  }

  lemma DrainFirstLine(s: string)
    requires LF in s
    ensures var k := IndexOf(s, LF); var line := Chomp(s[..k]);
      Drain(s).tokens == (if line == "" then [] else [line]) + Drain(s[k + 1..]).tokens
  {
    hide Search, SepAt, IndexOf, Chomp;
    var k := IndexOf(s, LF);
    if Chomp(s[..k]) == "" {
      EmptyLineAt(s);
      LineEndsClean();
      DrainAfterSeparator(s, LINE_ENDS);
    } else {
      hide Drain;
      FirstLineFound(s);
      DrainStep(s);
    }
  }

  /** The drain loop takes exactly the lines of the reference definition: split
      at line feeds, one trailing carriage return dropped, empty lines dropped. */
  lemma {:induction false} DrainIsLines(s: string)
    ensures Drain(s).tokens == LinesOf(s)
    decreases |s|
  {
    hide Drain, Chomp, LinesOf;
    if LF !in s {
      NoLineFeedNoLine(s);
    } else {
      LinesStep(s);
      DrainFirstLine(s);
      DrainIsLines(s[IndexOf(s, LF) + 1..]);
    }
  }

  /** The lines of a stream grow as it grows. */
  lemma LinesGrow(s: string, t: string)
    ensures LinesOf(s) <= LinesOf(s + t)
  {
    DrainIsLines(s);
    DrainIsLines(s + t);
    DrainAppend(s, t);
  }

  // ----- what a bounded buffer makes of a stream

  /** The bytes a drained buffer still holds once `s` has gone through it. */
  ghost function Residue(s: string): (r: string)
    ensures |r| <= |s|
  {
    Drain(s).rest
  }

  /** The residue is what follows the line feed that completes the last line: no
      line is left in it, and everything before it is taken. */
  lemma {:induction false} ResidueIsTail(s: string)
    ensures var k := |s| - |Residue(s)|;
      && s[k..] == Residue(s) && LinesOf(s[k..]) == [] && LinesOf(s[..k]) == LinesOf(s)
      && (k == 0 || s[k - 1] == LF) && Residue(s[..k]) == ""
    decreases |s|
  {
    hide Search, LinesOf, DrainBy;
    var k := |s| - |Residue(s)|;
    TailOf(s);
    DrainIsLines(s);
    DrainIsLines(s[..k]);
    DrainIsLines(s[k..]);
  }

  lemma {:induction false} TailOf(s: string)
    ensures var k := |s| - |Residue(s)|;
      && s[k..] == Residue(s) && Drain(s[..k]) == Drained(Drain(s).tokens, "") && Drain(s[k..]).tokens == []
      && (k == 0 || s[k - 1] == LF)
    decreases |s|
  {
    hide Search, SepAt, Drain;
    DrainStep(s);
    var c := Search(s, LINE_ENDS);
    var k := |s| - |Residue(s)|;
    if c.found {
      var t := s[c.full..];
      TailOf(t);
      assert t[k - c.full..] == s[k..] && t[..k - c.full] == s[..k][c.full..];
      SearchTruncated(s, k, LINE_ENDS);
      assert Token(s[..k], c) == Token(s, c);
      DrainStep(s[..k]);
      EndsWithLineFeed(s);
    } else {
      DrainStep("");
      assert s[k..] == s && s[..k] == "";
    }
  }

  lemma EndsWithLineFeed(s: string)
    requires Usable(LINE_ENDS) && Search(s, LINE_ENDS).found
    ensures s[Search(s, LINE_ENDS).full - 1] == LF
  {
  }

  /** The first `k` bytes leave room for at least one more. */
  ghost predicate Fits(s: string, k: nat, cap: nat)
    requires k <= |s|
  {
    |Residue(s[..k])| < cap
  }

  /** The shortest prefix, at least `n` long, that leaves `cap` bytes in the
      buffer and so no room to read; the whole stream if there is none. */
  ghost function LimitFrom(s: string, n: nat, cap: nat): (m: nat)
    requires n <= |s|
    ensures n <= m <= |s|
    ensures forall k :: n <= k < m ==> Fits(s, k, cap)
    ensures m < |s| ==> !Fits(s, m, cap)
    decreases |s| - n
  {
    if n == |s| || !Fits(s, n, cap) then n else LimitFrom(s, n + 1, cap)
  }

  /** How much of the stream a buffer with room for `cap` bytes can take in. It
      is a function of the bytes alone. */
  ghost function Limit(s: string, cap: nat): (m: nat)
    ensures m <= |s|
    ensures forall k :: 0 <= k < m ==> Fits(s, k, cap)
    ensures m < |s| ==> !Fits(s, m, cap)
  {
    LimitFrom(s, 0, cap)
  }

  /** No read can carry the session past the limit: it never asks for more bytes
      than the buffer has room for. */
  lemma ReadStaysBelowLimit(s: string, cap: nat, pos: nat, n: nat)
    requires pos + n <= |s| && pos <= Limit(s, cap)
    requires |Residue(s[..pos])| + n <= cap
    ensures pos + n <= Limit(s, cap)
  {
    hide Drain, Limit;
    var m := Limit(s, cap);
    if m < pos + n {
      assert !Fits(s, m, cap);
      assert s[..m] == s[..pos] + s[pos..m];
      DrainAppend(s[..pos], s[pos..m]);
    }
  }

  /** One more byte makes the residue at most one byte longer. */
  lemma ResidueGrowsByOne(s: string, k: nat)
    requires k < |s|
    ensures |Residue(s[..k + 1])| <= |Residue(s[..k])| + 1
  {
    hide Drain;
    assert s[..k + 1] == s[..k] + [s[k]];
    DrainAppend(s[..k], [s[k]]);
  }

  /** A stream overflows the buffer exactly if one of its proper prefixes leaves
      exactly `cap` bytes without a complete line, and then it stops there. */
  lemma OverflowIff(s: string, cap: nat)
    ensures Limit(s, cap) < |s| <==> exists k :: 0 <= k < |s| && |Residue(s[..k])| == cap
    ensures Limit(s, cap) < |s| ==> |Residue(s[..Limit(s, cap)])| == cap
  {
    hide Drain, Limit;
    var m := Limit(s, cap);
    if m < |s| {
      assert !Fits(s, m, cap);
      if m > 0 {
        assert Fits(s, m - 1, cap);
        ResidueGrowsByOne(s, m - 1);
      }
    }
    if k: nat :| k < |s| && |Residue(s[..k])| == cap {
      assert !Fits(s, k, cap);
    }
  }

  /** A buffer is full exactly at the limit. */
  lemma FullExactlyAtLimit(s: string, cap: nat, pos: nat)
    requires pos <= Limit(s, cap) && |Residue(s[..pos])| <= cap
    ensures pos < |s| ==> (|Residue(s[..pos])| == cap <==> pos == Limit(s, cap))
  {
    hide Limit, Residue;
    assert pos < Limit(s, cap) ==> Fits(s, pos, cap);
  }

  // ----- taking one line at a time from a bounded buffer

  lemma {:induction false} LimitIs(s: string, cap: nat, n: nat, m: nat)
    requires n <= m <= |s| && (forall k :: n <= k < m ==> Fits(s, k, cap)) && (m < |s| ==> !Fits(s, m, cap))
    ensures LimitFrom(s, n, cap) == m
    decreases m - n
  {
    hide Fits;
    if n < m {
      LimitIs(s, cap, n + 1, m);
    }
  }

  /** Behind the first line found, a longer prefix leaves what it leaves without
      that line. */
  lemma ResidueBehindLine(s: string, k: nat)
    requires Usable(LINE_ENDS) && Search(s, LINE_ENDS).found && Search(s, LINE_ENDS).full <= k <= |s|
    ensures var n := Search(s, LINE_ENDS).full;
      && Residue(s[..k]) == Residue(s[n..][..k - n])
      && LinesOf(s[..k]) == [Token(s, Search(s, LINE_ENDS))] + LinesOf(s[n..][..k - n])
  {
    hide Search, Drain, LinesOf;
    var c := Search(s, LINE_ENDS);
    SearchTruncated(s, k, LINE_ENDS);
    DrainStep(s[..k]);
    assert s[..k][c.full..] == s[c.full..][..k - c.full];
    assert Token(s[..k], c) == Token(s, c);
    DrainIsLines(s[..k]);
    DrainIsLines(s[c.full..][..k - c.full]);
  }

  lemma LimitBehindLine(s: string, cap: nat)
    requires Usable(LINE_ENDS) && Search(s, LINE_ENDS).found && Search(s, LINE_ENDS).full <= cap
    ensures var n := Search(s, LINE_ENDS).full; Limit(s, cap) == n + Limit(s[n..], cap)
  {
    hide Search, LimitFrom, Residue;
    var n := Search(s, LINE_ENDS).full;
    var m := Limit(s[n..], cap);
    forall k | 0 <= k <= n + m && k < |s| ensures Fits(s, k, cap) <==> k < n + m {
      if k < n {
        assert |Residue(s[..k])| <= k;
      } else {
        ResidueBehindLine(s, k);
        assert Fits(s, k, cap) == Fits(s[n..], k - n, cap);
      }
    }
    LimitIs(s, cap, 0, n + m);
  }

  /** Without a line in what the buffer can hold there is none up to the limit. */
  lemma NoLineUpToLimit(s: string, cap: nat)
    requires Usable(LINE_ENDS) && !Search(s[..Min(|s|, cap)], LINE_ENDS).found
    ensures LinesOf(s[..Limit(s, cap)]) == []
  {
    hide Search, Limit, LinesOf, Drain;
    var w := s[..Min(|s|, cap)];
    DrainStep(w);
    assert |s| > cap ==> !Fits(s, cap, cap);
    var m := Limit(s, cap);
    assert m <= |w|;
    assert w == s[..m] + w[m..];
    LinesGrow(s[..m], w[m..]);
    DrainIsLines(w);
  }
}
