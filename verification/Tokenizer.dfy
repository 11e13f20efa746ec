/** The tokenizer as it runs: index loops over a buffer, tokens cut out in
    place, and the three drivers around them. */
module Tokenizer {
  import opened Bytes
  import opened Tokens
  import opened Buffers

  /** Separators are non-empty C strings. */
  ghost predicate CStrings(seps: seq<string>) {
    forall p :: p in seps ==> p != "" && NUL !in p
  }

  /** strncmp(&buf[i], p, strlen(p)) == 0. The terminator stops the comparison
      before it can leave the buffer. */
  method Matches(b: Buffer, i: nat, p: string) returns (m: bool)
    requires b.Valid() && i <= b.buflen && NUL !in p
    ensures m == MatchAt(b.Content(), i, p)
  {
    var k := 0;
    while k < |p|
      invariant k <= |p| && i + k <= b.buflen
      invariant b.buf[i..i + k] == p[..k]
    {
      if b.buf[i + k] != p[k] {
        if i + |p| <= b.buflen {
          assert b.Content()[i..i + |p|][k] == b.Content()[i + k] == b.buf[i + k];
        }
        return false;
      }
      k := k + 1;
    }
    assert b.Content()[i..i + k] == b.buf[i..i + k] == p[..k] == p;
    return true;
  }

  ghost predicate LongestFirst(seps: seq<string>) {
    forall m, n :: 0 <= m < n < |seps| ==> |seps[n]| <= |seps[m]|
  }

  lemma InsertedOrder(sorted: seq<string>, k: nat, x: string)
    requires LongestFirst(sorted) && k <= |sorted|
    requires forall m :: 0 <= m < k ==> |x| <= |sorted[m]|
    requires k < |sorted| ==> |sorted[k]| <= |x|
    ensures LongestFirst(sorted[..k] + [x] + sorted[k..])
  {
    var r := sorted[..k] + [x] + sorted[k..];
    forall m, n | 0 <= m < n < |r| ensures |r[n]| <= |r[m]| {
      assert r[m] == if m < k then sorted[m] else if m == k then x else sorted[m - 1];
      assert r[n] == if n < k then sorted[n] else if n == k then x else sorted[n - 1];
    }
  }

  lemma InsertedItems(sorted: seq<string>, k: nat, x: string)
    requires k <= |sorted|
    ensures multiset(sorted[..k] + [x] + sorted[k..]) == multiset(sorted) + multiset{x}
  {
    assert sorted == sorted[..k] + sorted[k..];
  }

  /** qsort with strlencmp: longest first, in no particular order otherwise. */
  method SortByLength(seps: seq<string>) returns (sorted: seq<string>)
    ensures LongestFirst(sorted) && multiset(sorted) == multiset(seps)
  {
    sorted := [];
    for i := 0 to |seps|
      invariant LongestFirst(sorted) && multiset(sorted) == multiset(seps[..i])
    {
      var k := 0;
      while k < |sorted| && |seps[i]| <= |sorted[k]|
        invariant k <= |sorted|
        invariant forall m :: 0 <= m < k ==> |seps[i]| <= |sorted[m]|
      {
        k := k + 1;
      }
      InsertedOrder(sorted, k, seps[i]);
      InsertedItems(sorted, k, seps[i]);
      assert seps[..i + 1] == seps[..i] + [seps[i]];
      sorted := sorted[..k] + [seps[i]] + sorted[k..];
    }
    assert seps[..|seps|] == seps;
  }

  /** The loop over all separators at one position: the length of the first that
      matches, 0 if none does. */
  method FirstMatch(b: Buffer, i: nat, sorted: seq<string>) returns (n: nat)
    requires b.Valid() && i <= b.buflen && CStrings(sorted) && LongestFirst(sorted)
    ensures n == |SepAt(b.Content(), i, ToSet(sorted))|
  {
    for m := 0 to |sorted|
      invariant forall l :: 0 <= l < m ==> !MatchAt(b.Content(), i, sorted[l])
    {
      var hit := Matches(b, i, sorted[m]);
      if hit {
        LongestUnique(b.Content(), i, ToSet(sorted), sorted[m]);
        return |sorted[m]|;
      }
    }
    LongestUnique(b.Content(), i, ToSet(sorted), "");
    return 0;
  }

  /** First part of searchToken: jumps over the separators at the front. */
  method SkipLeading(b: Buffer, sorted: seq<string>) returns (tokenstart: nat)
    requires b.Valid() && CStrings(sorted) && LongestFirst(sorted)
    ensures tokenstart == SkipSeps(b.Content(), 0, ToSet(sorted))
  {
    ghost var s, S := b.Content(), ToSet(sorted);
    tokenstart := 0;
    var i := 0;
    var ledSeparator := true;
    while i < b.buflen && ledSeparator
      invariant tokenstart == i <= b.buflen
      invariant SkipSeps(s, 0, S) == SkipSeps(s, i, S)
      invariant !ledSeparator ==> SepAt(s, i, S) == ""
      decreases b.buflen - i, ledSeparator
    {
      var n := FirstMatch(b, i, sorted);
      tokenstart := tokenstart + n;
      i := i + n;
      ledSeparator := n != 0;
    }
    NothingPastEnd(s, |s|, S);
  }

  /** Second part of searchToken: the first position after the token and the
      length of the separator there, 0 if the token runs to the end. */
  method FindSuffix(b: Buffer, sorted: seq<string>, tokenstart: nat) returns (found: bool, at: nat, n: nat)
    requires b.Valid() && tokenstart <= b.buflen && CStrings(sorted) && LongestFirst(sorted)
    ensures at == FindSep(b.Content(), tokenstart, ToSet(sorted))
    ensures found == (at < b.buflen) && n == if found then |SepAt(b.Content(), at, ToSet(sorted))| else 0
  {
    ghost var s, S := b.Content(), ToSet(sorted);
    found, at, n := false, b.buflen, 0;
    var j := tokenstart;
    while j < b.buflen
      invariant tokenstart <= j <= b.buflen
      invariant if found then j == b.buflen && at == FindSep(s, tokenstart, S) < |s| && n == |SepAt(s, at, S)|
        else at == |s| && n == 0 && FindSep(s, tokenstart, S) == FindSep(s, j, S)
    {
      var k := FirstMatch(b, j, sorted);
      if k != 0 {
        found, at, n := true, j, k;
        j := b.buflen;
      } else {
        j := j + 1;
      }
    }
  }

  /** searchToken. The result depends on the set of separators only. */
  method SearchToken(b: Buffer, seps: seq<string>)
    returns (found: bool, tokenstart: nat, tokenlength: nat, fulllength: nat)
    requires b.Valid() && CStrings(seps)
    ensures Usable(ToSet(seps))
    ensures Cut(found, tokenstart, tokenlength, fulllength) == Search(b.Content(), ToSet(seps))
  {
    var sorted := SortByLength(seps);
    assert forall p :: p in sorted <==> p in multiset(sorted);
    assert forall p :: p in seps <==> p in multiset(seps);
    assert ToSet(sorted) == ToSet(seps);

    tokenstart := SkipLeading(b, sorted);
    var at, n;
    found, at, n := FindSuffix(b, sorted, tokenstart);
    tokenlength := at - tokenstart;
    fulllength := tokenstart + n + tokenlength;
    if !found {
      fulllength := b.buflen;
    }
  }

  /** extractToken: -1 when one of its four tests fails, and then nothing has
      changed. */
  method ExtractToken(b: Buffer, token: Buffer, tokenstart: nat, tokenlength: nat, fulllength: nat) returns (r: int)
    requires b.Valid() && token.Valid() && b.buf != token.buf
    requires b.buf.Length <= token.buf.Length
    modifies b, b.buf, token, token.buf
    ensures b.Valid() && token.Valid()
    ensures r == 1 || r == -1
    ensures r == 1 <==> tokenstart + tokenlength <= fulllength <= old(b.buflen)
    ensures r == 1 ==> token.Content() == old(b.Content())[tokenstart..tokenstart + tokenlength]
    ensures r == 1 ==> b.Content() == old(b.Content())[fulllength..]
    ensures r == -1 ==> b.Content() == old(b.Content()) && token.Content() == old(token.Content())
  {
    if tokenlength > token.buf.Length || fulllength > b.buflen
      || tokenlength + tokenstart > fulllength || tokenstart > b.buflen {
      return -1;
    }
    ghost var s, n := b.Content(), b.buflen - fulllength;
    forall k | 0 <= k < tokenlength {
      token.buf[k] := b.buf[tokenstart + k];
    }
    assert token.buf[..tokenlength] == s[tokenstart..tokenstart + tokenlength];
    token.buflen := tokenlength;
    token.buf[tokenlength] := NUL;
    assert token.Content() == s[tokenstart..tokenstart + tokenlength];
    assert b.buf[fulllength..b.buflen] == s[fulllength..] && b.buf[b.buflen] == NUL;
    forall k | 0 <= k < b.buflen - fulllength + 1 {
      b.buf[k] := b.buf[fulllength + k];
    }
    assert b.buf[..n] == s[fulllength..] && b.buf[n] == NUL;
    b.buflen := b.buflen - fulllength;
    return 1;
  }

  /** getTokenFromStreamBuffer: never fails when the token buffer is as large as
      the data buffer. */
  method GetTokenFromStreamBuffer(b: Buffer, token: Buffer, seps: seq<string>) returns (r: int)
    requires b.Valid() && token.Valid() && b.buf != token.buf && b != token
    requires b.buf.Length <= token.buf.Length && CStrings(seps)
    modifies b, b.buf, token, token.buf
    ensures b.Valid() && token.Valid() && Usable(ToSet(seps))
    ensures var c := Search(old(b.Content()), ToSet(seps));
      if c.found then
        r == 1 && token.Content() == Token(old(b.Content()), c) && b.Content() == old(b.Content())[c.full..]
        && b.buflen + 2 <= old(b.buflen) && token.Content() != ""
      else
        r == 0 && token.Content() == old(token.Content()) && b.Content() == old(b.Content())
  {
    var found, ts, tl, fl := SearchToken(b, seps);
    if found {
      var e := ExtractToken(b, token, ts, tl, fl);
      if e == -1 {
        return -1;
      }
      return 1;
    }
    return 0;
  }

  /** getTokenFromBuffer: here the end of the buffer ends a token too. With no
      token left it changes neither buffer, so the old token stays readable. */
  method GetTokenFromBuffer(b: Buffer, token: Buffer, seps: seq<string>) returns (r: int)
    requires b.Valid() && token.Valid() && b.buf != token.buf && b != token
    requires b.buf.Length <= token.buf.Length && CStrings(seps)
    modifies b, b.buf, token, token.buf
    ensures b.Valid() && token.Valid() && Usable(ToSet(seps))
    ensures var c := Search(old(b.Content()), ToSet(seps));
      if c.len != 0 then
        r == 1 && token.Content() == Token(old(b.Content()), c) && b.Content() == old(b.Content())[c.full..]
      else
        r == 0 && token.Content() == old(token.Content()) && b.Content() == old(b.Content())
  {
    var found, ts, tl, fl := SearchToken(b, seps);
    if tl == 0 {
      return 0;
    }
    var e := ExtractToken(b, token, ts, tl, fl);
    if e == -1 {
      return -1;
    }
    return 1;
  }

  /** All bytes not yet consumed: those in the buffer and those to come. */
  ghost function Ahead(ch: Channel, b: Buffer): string
    requires ch.Valid() && b.Valid()
    reads ch, b, b.buf
  {
    b.Content() + ch.Rest()
  }

  /** What a buffer of size `bufmax` can hold of them at once. */
  function Window(v: string, bufmax: nat): (w: string)
    requires bufmax > 0
    ensures w <= v && |w| < bufmax
  {
    v[..Min(|v|, bufmax - 1)]
  }

  lemma SearchPrefix(w: string, b: string, S: set<string>)
    requires Usable(S) && PrefixClean(S)
    requires b <= w && Search(b, S).found
    ensures Search(w, S) == Search(b, S)
  {
    assert w == b + w[|b|..];
    StableUnderAppend(b, w[|b|..], S);
  }

  lemma BufferedInWindow(content: string, rest: string, bufmax: nat)
    requires |content| < bufmax
    ensures content <= Window(content + rest, bufmax)
    ensures |content| == bufmax - 1 || rest == "" ==> content == Window(content + rest, bufmax)
  {
  }

  /** A token of the buffered part is the token of all bytes ahead. */
  lemma TokenAhead(b: string, rest: string, c: Cut)
    requires c.start + c.len <= c.full <= |b|
    ensures Token(b + rest, c) == Token(b, c) && (b + rest)[c.full..] == b[c.full..] + rest
  {
  }

  /** The loop of getTokenFromStream: searches and reads until a token is complete
      (1), there is nothing more to read (0) or a call fails (-1). */
  method FillUntilToken(ch: Channel, b: Buffer, seps: seq<string>)
    returns (r: int, ts: nat, tl: nat, fl: nat)
    requires ch.Valid() && b.Valid() && CStrings(seps) && PrefixClean(ToSet(seps))
    modifies ch, b, b.buf
    ensures ch.Valid() && b.Valid() && Usable(ToSet(seps)) && Ahead(ch, b) == old(Ahead(ch, b))
    ensures r in {1, 0, -1} && (r == -1 ==> ch.faulty) && ch.interrupts <= old(ch.interrupts)
    ensures var v := old(Ahead(ch, b)); var c := Search(Window(v, b.buf.Length), ToSet(seps));
      && (r == 1 ==> c.found && c == Cut(true, ts, tl, fl) && fl <= b.buflen)
      && (r == 0 ==> !c.found && b.Content() == Window(v, b.buf.Length))
      && (r == 0 ==> (ch.pos < |ch.stream| <==> |v| >= b.buf.Length))
  {
    hide Search, Window;
    ghost var v, S := Ahead(ch, b), ToSet(seps);
    assert Usable(S);
    while true
      invariant ch.Valid() && b.Valid()
      invariant Ahead(ch, b) == v && ch.interrupts <= old(ch.interrupts)
      decreases |ch.stream| - ch.pos, ch.interrupts
    {
      var found;
      found, ts, tl, fl := SearchToken(b, seps);
      BufferedInWindow(b.Content(), ch.Rest(), b.buf.Length);
      if found {
        SearchPrefix(Window(v, b.buf.Length), b.Content(), S);
        return 1, ts, tl, fl;
      }
      if b.buflen >= b.buf.Length {
        assert false;   // never: a full buffer shows up as a read of nothing
      }
      var p := ch.Poll();
      if p == -1 {
        return -1, ts, tl, fl;
      } else if p == 1 {
        var n := b.ReadFrom(ch);
        if n == -1 {
          return -1, ts, tl, fl;
        } else if n == 0 {
          return 0, ts, tl, fl;
        }
      }
    }
  }

  /** getTokenFromStream. On a channel that does not fail the result depends on the
      bytes ahead alone: a token is found exactly when one is complete within what
      the buffer can hold, however the reads cut the stream. A 0 leaves part of the
      stream unread, a full buffer being taken for its end, exactly when the bytes
      ahead do not fit the buffer. */
  method GetTokenFromStream(ch: Channel, b: Buffer, token: Buffer, seps: seq<string>) returns (r: int)
    requires ch.Valid() && b.Valid() && token.Valid() && b.buf != token.buf && b != token
    requires b.buf.Length <= token.buf.Length && CStrings(seps) && PrefixClean(ToSet(seps))
    modifies ch, b, b.buf, token, token.buf
    ensures ch.Valid() && b.Valid() && token.Valid() && Usable(ToSet(seps))
    ensures r in {1, 0, -1} && (r == -1 ==> ch.faulty)
    ensures ch.interrupts <= old(ch.interrupts)
    ensures var v := old(Ahead(ch, b)); var c := Search(Window(v, b.buf.Length), ToSet(seps));
      && (r == 1 ==> c.found && token.Content() == Token(v, c) && Ahead(ch, b) == v[c.full..])
      && (r != 1 ==> token.Content() == old(token.Content()) && Ahead(ch, b) == v)
      && (r == 0 ==> !c.found && b.Content() == Window(v, b.buf.Length))
      && (r == 0 ==> (ch.pos < |ch.stream| <==> |v| >= b.buf.Length))
  {
    hide Search, Window;
    var ts, tl, fl;
    r, ts, tl, fl := FillUntilToken(ch, b, seps);
    if r == 1 {
      TokenAhead(b.Content(), ch.Rest(), Cut(true, ts, tl, fl));
      var e := ExtractToken(b, token, ts, tl, fl);
      if e == -1 {
        return -1;
      }
    }
  }

  /** searchString: 1 exactly if one of the search strings occurs in the string. */
  method SearchString(str: string, seps: seq<string>) returns (t: int)
    requires NUL !in str && CStrings(seps)
    ensures t == 0 || t == 1
    ensures t == 1 <==> exists p, k: nat :: p in ToSet(seps) && MatchAt(str, k, p)
  {
    var b := new Buffer(|str| + 1);
    forall k | 0 <= k < |str| {
      b.buf[k] := str[k];
    }
    b.buflen := |str|;
    b.buf[|str|] := NUL;
    assert b.Content() == str;
    var found, ts, tl, fl := SearchToken(b, seps);
    MentionsIffOccurs(str, ToSet(seps));
    t := if found then 1 else 0;
    if t == 0 && ts != 0 {
      t := 1;
    }
  }
}
