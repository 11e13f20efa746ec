/** What a peer makes of a byte stream: the fold of its line handler over the
    lines, up to the line that ends the session. */
module Session {
  import opened Bytes
  import opened Tokens
  import opened Lines
  import opened Decimal

  // ----- dispatch

  /** Return codes of actions: positive to go on, 0 for a clean exit, -1 to
      abort, -2 and -3 for a forked child that is done. */
  type Code = c: int | -3 <= c witness 1

  function Lower(c: char): char {
    if 'A' <= c <= 'Z' then ((c as int) + 32) as char else c
  }

  /** strcasecmp(a, b) == 0 */
  predicate SameIgnoringCase(a: string, b: string) {
    |a| == |b| && forall i :: 0 <= i < |a| ==> Lower(a[i]) == Lower(b[i])
  }

  function Upper(c: char): char {
    if 'a' <= c <= 'z' then ((c as int) - 32) as char else c
  }

  function Uppercase(s: string): (r: string)
    ensures |r| == |s| && forall i :: 0 <= i < |s| ==> r[i] == Upper(s[i])
  {
    if s == "" then "" else [Upper(s[0])] + Uppercase(s[1..])
  }

  /** Two words are the same ignoring case exactly if their upper-case forms are. */
  lemma SameIffUppercase(a: string, b: string)
    ensures SameIgnoringCase(a, b) <==> Uppercase(a) == Uppercase(b)
  {
    hide Uppercase;
    assert forall c, d :: Lower(c) == Lower(d) <==> Upper(c) == Upper(d);
    if Uppercase(a) == Uppercase(b) {
      forall i | 0 <= i < |a| ensures Lower(a[i]) == Lower(b[i]) {
        assert Uppercase(a)[i] == Uppercase(b)[i];
      }
    }
  }

  /** One call of an action: its place in the table, or the table's length for
      the default action, and the word and the remainder it is given. */
  datatype Invocation = Invocation(action: nat, word: string, rest: string)

  function Lookup(table: seq<string>, word: string): (k: nat)
    ensures k <= |table|
    ensures k < |table| ==> SameIgnoringCase(table[k], word)
    ensures forall j :: 0 <= j < k ==> !SameIgnoringCase(table[j], word)
    decreases |table|
  {
    if table == [] || SameIgnoringCase(table[0], word) then 0
    else 1 + Lookup(table[1..], word)
  }

  /** The case in which a word is typed makes no difference. */
  lemma LookupIgnoresCase(table: seq<string>, a: string, b: string)
    requires Uppercase(a) == Uppercase(b)
    ensures Lookup(table, a) == Lookup(table, b)
  {
    hide Uppercase;
    forall i | 0 <= i < |table| ensures SameIgnoringCase(table[i], a) <==> SameIgnoringCase(table[i], b) {
      SameIffUppercase(table[i], a);
      SameIffUppercase(table[i], b);
    }
  }

  /** The command in a line, None for a line of blanks. */
  ghost function Command(table: seq<string>, line: string): Option<Invocation> {
    BlanksClean();
    var c := Search(line, BLANKS);
    if c.len == 0 then None
    else Some(Invocation(Lookup(table, CString(Token(line, c))), Token(line, c), line[c.full..]))
  }

  const SERVER_TABLE: seq<string> := ["FILELIST", "STATUS", "QUIT", "SEARCH", "PORT", "BROWSE", "HELP"]
  const CLIENT_TABLE: seq<string> := ["RESULT", "SENDLIST"]

  /** What a peer does on a line: it calls an action, or shows a text. */
  datatype Deed = Invoked(call: Invocation) | Shown(code: int, text: string)

  // ----- one line

  /** The deeds so far, whether the last line ended the session, and the code
      that the line came to. */
  datatype Run = Run(log: seq<Deed>, stopped: bool, code: int)

  ghost function Doing(act: seq<Deed> -> Code, log: seq<Deed>, deed: Deed): Run {
    Run(log + [deed], act(log + [deed]) <= 0, act(log + [deed]))
  }

  /** processCommand: 2 for a line without a word, otherwise what the action
      returns. A code that is not positive ends the session. */
  ghost function HandleCommand(table: seq<string>, act: seq<Deed> -> Code, log: seq<Deed>, line: string): Run {
    match Command(table, line)
    case None => Run(log, false, 2)
    case Some(call) => Doing(act, log, Invoked(call))
  }

  const REP_OK: int := 100
  const REP_TEXT: int := 200
  const REP_COMMAND: int := 300
  const REP_WARN: int := 400
  const REP_FATAL: int := 500

  predicate IsReplyCode(p: Parsed) {
    p.errno.NoError? && REP_OK <= p.number <= REP_FATAL && p.number % 100 == 0
  }

  /** One line of processServerReply. A line of blanks ends the round with 2, on
      which the client quits. */
  ghost function HandleReply(act: seq<Deed> -> Code, log: seq<Deed>, line: string): Run {
    BlanksClean();
    var c := Search(line, BLANKS);
    var p := Parse(CString(Token(line, c)));
    var rest := line[c.full..];
    if c.len == 0 then Run(log, true, 2)
    else if !IsReplyCode(p) then Run(log, true, -1)
    else if p.number == REP_COMMAND then HandleCommand(CLIENT_TABLE, act, log, rest)
    else Doing(act, log, Shown(p.number, if p.number == REP_OK then "OK" else CString(rest)))
  }

  datatype Peer = AsServer(table: seq<string>) | AsClient

  ghost function HandleLine(peer: Peer, act: seq<Deed> -> Code, log: seq<Deed>, line: string): Run {
    match peer
    case AsServer(table) => HandleCommand(table, act, log, line)
    case AsClient => HandleReply(act, log, line)
  }

  // ----- a session as a fold over lines

  ghost function RunLines(peer: Peer, act: seq<Deed> -> Code, log: seq<Deed>, lines: seq<string>): (x: Run)
    ensures log <= x.log
    ensures !x.stopped ==> x.code == 1
    ensures x.stopped ==> x.code != 1 && (x.code <= 0 || x.code == 2)
    decreases |lines|
  {
    if lines == [] then Run(log, false, 1)
    else
      var x := HandleLine(peer, act, log, lines[0]);
      if x.stopped then x else RunLines(peer, act, x.log, lines[1..])
  }

  lemma RunLinesStep(peer: Peer, act: seq<Deed> -> Code, log: seq<Deed>, line: string, lines: seq<string>)
    ensures var x := HandleLine(peer, act, log, line);
      RunLines(peer, act, log, [line] + lines) == if x.stopped then x else RunLines(peer, act, x.log, lines)
    ensures RunLines(peer, act, log, []) == Run(log, false, 1)
  {
  }

  lemma {:induction false} RunLinesAppend(peer: Peer, act: seq<Deed> -> Code, log: seq<Deed>, a: seq<string>, b: seq<string>)
    ensures var x := RunLines(peer, act, log, a);
      RunLines(peer, act, log, a + b) == if x.stopped then x else RunLines(peer, act, x.log, b)
    decreases |a|
  {
    hide HandleLine;
    if a == [] {
      assert a + b == b;
    } else {
      assert (a + b)[0] == a[0] && (a + b)[1..] == a[1..] + b;
      RunLinesAppend(peer, act, HandleLine(peer, act, log, a[0]).log, a[1..], b);
    }
  }

  /** On the server every call but the last returned a positive code, and the last
      one too unless it ended the session. */
  lemma {:induction false} OnlyTheLastStops(table: seq<string>, act: seq<Deed> -> Code, log: seq<Deed>, lines: seq<string>, k: nat)
    ensures var x := RunLines(AsServer(table), act, log, lines);
      && (x.stopped ==> x.code == act(x.log) <= 0)
      && (|log| < k <= |x.log| ==> (act(x.log[..k]) <= 0 <==> x.stopped && k == |x.log|))
    decreases |lines|
  {
    hide Command;
    if lines != [] {
      var x := RunLines(AsServer(table), act, log, lines);
      var y := HandleCommand(table, act, log, lines[0]);
      assert x.log[..|x.log|] == x.log;
      if !y.stopped {
        OnlyTheLastStops(table, act, y.log, lines[1..], k);
        assert x.log[..|y.log|] == y.log;
      }
    }
  }

  /** The whole session on a byte stream, for a buffer with room for `cap`
      bytes. No reads and no chunks are mentioned. */
  ghost function Outcome(peer: Peer, act: seq<Deed> -> Code, stream: string, cap: nat): Run {
    RunLines(peer, act, [], LinesOf(stream[..Limit(stream, cap)]))
  }

  /** A session that was stopped by a command has already had its outcome. */
  lemma StoppedIsFinal(peer: Peer, act: seq<Deed> -> Code, stream: string, cap: nat, pos: nat)
    requires pos <= Limit(stream, cap)
    requires RunLines(peer, act, [], LinesOf(stream[..pos])).stopped
    ensures Outcome(peer, act, stream, cap) == RunLines(peer, act, [], LinesOf(stream[..pos]))
  {
    hide LinesOf, Limit, RunLines;
    var m := Limit(stream, cap);
    assert stream[..m] == stream[..pos] + stream[pos..m];
    LinesGrow(stream[..pos], stream[pos..m]);
    var a, all := LinesOf(stream[..pos]), LinesOf(stream[..m]);
    assert all == a + all[|a|..];
    RunLinesAppend(peer, act, [], a, all[|a|..]);
  }

  /** Without overflow the session is the fold over all lines of the stream. */
  lemma NoOverflowAllLines(peer: Peer, act: seq<Deed> -> Code, stream: string, cap: nat)
    requires forall k :: 0 <= k < |stream| ==> Fits(stream, k, cap)
    ensures Outcome(peer, act, stream, cap) == RunLines(peer, act, [], LinesOf(stream))
  {
    assert stream[..|stream|] == stream;
  }

  lemma ShortStreamFits(stream: string, cap: nat)
    requires |stream| <= cap
    ensures forall k :: 0 <= k < |stream| ==> Fits(stream, k, cap)
  {
  }

  lemma Start(peer: Peer, act: seq<Deed> -> Code, s: string)
    ensures Residue(s[..0]) == "" && RunLines(peer, act, [], LinesOf(s[..0])) == Run([], false, 1)
  {
  }

  /** One read that delivers `s[p..q]` to a drained buffer, and the drain after
      it, take the session from one prefix of the stream to the next. */
  lemma Round(peer: Peer, act: seq<Deed> -> Code, s: string, cap: nat, p: nat, q: nat, log: seq<Deed>)
    requires p < q <= |s| && p <= Limit(s, cap) && |Residue(s[..p])| + (q - p) <= cap
    requires RunLines(peer, act, [], LinesOf(s[..p])) == Run(log, false, 1)
    ensures q <= Limit(s, cap)
    ensures var d := Drain(Residue(s[..p]) + s[p..q]);
      var x := RunLines(peer, act, log, d.tokens);
      && RunLines(peer, act, [], LinesOf(s[..q])) == x && Residue(s[..q]) == d.rest
      && (x.stopped ==> Outcome(peer, act, s, cap) == x)
  {
    hide Drain, LinesOf, Limit, RunLines, Outcome;
    ReadStaysBelowLimit(s, cap, p, q - p);
    assert s[..q] == s[..p] + s[p..q];
    DrainAppend(s[..p], s[p..q]);
    DrainIsLines(s[..p]);
    DrainIsLines(s[..q]);
    var tokens := Drain(Residue(s[..p]) + s[p..q]).tokens;
    RunLinesAppend(peer, act, [], LinesOf(s[..p]), tokens);
    if RunLines(peer, act, log, tokens).stopped {
      StoppedIsFinal(peer, act, s, cap, q);
    }
  }
}
