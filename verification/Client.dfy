/** The client's event loop for what the server sends. */
module Client {
  import opened Bytes
  import opened Tokens
  import opened Buffers
  import opened Tokenizer
  import opened Lines
  import opened Decimal
  import opened Session
  import opened Protocol

  const STDIN_TABLE: seq<string> := ["EXIT", "SHOW", "DOWNLOAD", "RESULTS", "HELP"]

  /** processCode: a command is run under the client's own table, after which the
      table for user input is in force again. REP_FATAL shows its text like the
      others and goes on. */
  method ProcessCode(ap: ActionParameters, code: int) returns (ret: int)
    requires ap.Valid() && IsReplyCode(Parsed(code, NoError)) && ap.prot == STDIN_TABLE
    modifies ap, ap.comline, ap.comline.buf, ap.comword, ap.comword.buf
    ensures ap.Valid() && ap.combuf.Content() == old(ap.combuf.Content()) && ap.prot == STDIN_TABLE
    ensures var line := old(ap.comline.Content());
      var x := if code == REP_COMMAND then HandleCommand(CLIENT_TABLE, ap.act, old(ap.log), line)
        else Doing(ap.act, old(ap.log), Shown(code, if code == REP_OK then "OK" else CString(line)));
      ap.log == x.log && ret == x.code && (x.stopped <==> ret <= 0)
  {
    if code == REP_OK {
      ap.log := ap.log + [Shown(code, "OK")];
      return ap.act(ap.log);
    } else if code == REP_COMMAND {
      ap.prot := CLIENT_TABLE;
      ret := ap.ProcessCommand();
      ap.prot := STDIN_TABLE;
    } else if code == REP_TEXT || code == REP_WARN || code == REP_FATAL {
      ap.log := ap.log + [Shown(code, CString(ap.comline.buf[..ap.comline.buflen]))];
      return ap.act(ap.log);
    } else {
      return -1;
    }
  }

  /** The part of the drain loop that handles the line in comline. */
  method ReplyLine(ap: ActionParameters) returns (ret: int, stop: bool)
    requires ap.Valid() && ap.prot == STDIN_TABLE
    modifies ap, ap.comline, ap.comline.buf, ap.comword, ap.comword.buf
    ensures ap.Valid() && ap.combuf.Content() == old(ap.combuf.Content()) && ap.prot == STDIN_TABLE
    ensures var x := HandleReply(ap.act, old(ap.log), old(ap.comline.Content()));
      ap.log == x.log && stop == x.stopped && ret == x.code
  {
    hide Search, HandleCommand, Parse;
    assert ToSet([" ", "\t"]) == BLANKS;
    var r := GetTokenFromBuffer(ap.comline, ap.comword, [" ", "\t"]);
    if r == -1 {
      return -1, true;
    } else if r == 0 {
      return 2, true;
    }
    var code, errno := MyStrtol(CString(ap.comword.buf[..ap.comword.buflen]));
    if !errno.NoError? || code < REP_OK || code > REP_FATAL || code % 100 != 0 {
      return -1, true;
    }
    ret := ProcessCode(ap, code);
    stop := ret <= 0;
  }

  /** processServerReply: one read, then every complete line, until one ends the
      round. The end of the stream is an error here. */
  method ProcessServerReply(ap: ActionParameters, ch: Channel) returns (ret: int)
    requires ap.Valid() && ch.Valid() && ch !in ap.Repr() && ap.prot == STDIN_TABLE
    modifies ap.Repr(), ch
    ensures ap.Valid() && ch.Valid() && old(ch.pos) <= ch.pos && ap.prot == STDIN_TABLE
    ensures ch.interrupts <= old(ch.interrupts)
    ensures ch.pos - old(ch.pos) <= ap.Cap() - |old(ap.combuf.Content())|
    ensures ch.pos == old(ch.pos) ==>
      && ap.log == old(ap.log) && ap.combuf.Content() == old(ap.combuf.Content()) && ret in {1, -1}
      && (ret == 1 ==> ch.interrupts < old(ch.interrupts))
      && (ret == -1 ==> ch.faulty || |ap.combuf.Content()| == ap.Cap() || ch.pos == |ch.stream|)
    ensures ch.pos > old(ch.pos) ==>
      var d := Drain(old(ap.combuf.Content()) + ch.stream[old(ch.pos)..ch.pos]);
      var x := RunLines(AsClient, ap.act, old(ap.log), d.tokens);
      ap.log == x.log && ret == x.code && (!x.stopped ==> ap.combuf.Content() == d.rest)
  {
    hide Search, Command, HandleReply, Drain, RunLines;
    var count := ap.combuf.ReadFrom(ch);
    if count == -1 {
      return -1;
    } else if count == -2 {
      return 1;
    } else if count == 0 {
      return -1;
    }
    label Arrived:
    ghost var d := Drain(ap.combuf.Content());
    ghost var x := RunLines(AsClient, ap.act, ap.log, d.tokens);
    assert ToSet(["\r\n", "\n"]) == LINE_ENDS;
    DrainStep(ap.combuf.Content());
    var r := GetTokenFromStreamBuffer(ap.combuf, ap.comline, ["\r\n", "\n"]);
    while r > 0
      invariant ap.Valid() && unchanged@Arrived(ch) && ap.prot == STDIN_TABLE
      invariant r > 0 ==>
        var rest := Drain(ap.combuf.Content());
        x == RunLines(AsClient, ap.act, ap.log, [ap.comline.Content()] + rest.tokens) && rest.rest == d.rest
      invariant r <= 0 ==> r == 0 && x == RunLines(AsClient, ap.act, ap.log, []) && ap.combuf.Content() == d.rest
      decreases ap.combuf.buflen, r
    {
      ghost var rest := Drain(ap.combuf.Content());
      RunLinesStep(AsClient, ap.act, ap.log, ap.comline.Content(), rest.tokens);
      var code, stop := ReplyLine(ap);
      if stop {
        return code;
      }
      DrainStep(ap.combuf.Content());
      r := GetTokenFromStreamBuffer(ap.combuf, ap.comline, ["\r\n", "\n"]);
    }
    if r < 0 {
      return r;
    }
    RunLinesStep(AsClient, ap.act, ap.log, "", []);
    return 1;
  }

  /** The server branch of the client's main loop, over so many calls of it. It
      goes on at 0 and 1 and quits at everything else, also at the 2 of a line of
      blanks, and it does quit: enough calls always end it. No action of the client and no console message returns 0, so what it
      has done when it quits is again the outcome of the bytes. */
  method ServerBranch(ap: ActionParameters, ch: Channel, rounds: nat) returns (ret: Option<int>)
    requires ap.Valid() && ch.Valid() && ch !in ap.Repr() && ap.prot == STDIN_TABLE
    requires ch.pos == 0 && ap.log == [] && ap.combuf.Content() == ""
    requires forall log :: ap.act(log) != 0
    modifies ap.Repr(), ch
    ensures ap.Valid() && ch.Valid() && ch.pos <= Limit(ch.stream, ap.Cap()) && ap.prot == STDIN_TABLE
    ensures ap.log == RunLines(AsClient, ap.act, [], LinesOf(ch.stream[..ch.pos])).log
    ensures ret.Some? && !ch.faulty ==>
      var x := Outcome(AsClient, ap.act, ch.stream, ap.Cap());
      ap.log == x.log && ret.value == if x.stopped then x.code else -1
    ensures rounds > |ch.stream| + old(ch.interrupts) ==> ret.Some?
  {
    hide Drain, LinesOf, Limit, RunLines;
    ghost var s, cap := ch.stream, ap.Cap();
    Start(AsClient, ap.act, s);
    for i := 0 to rounds
      invariant ap.Valid() && ch.Valid() && ch.pos <= Limit(s, cap) && ap.prot == STDIN_TABLE
      invariant RunLines(AsClient, ap.act, [], LinesOf(s[..ch.pos])) == Run(ap.log, false, 1)
      invariant ap.combuf.Content() == Residue(s[..ch.pos])
      invariant i + ch.interrupts <= ch.pos + old(ch.interrupts)
    {
      ghost var p, before := ch.pos, ap.log;
      var r := ProcessServerReply(ap, ch);
      if ch.pos > p {
        Round(AsClient, ap.act, s, cap, p, ch.pos, before);
        NeverZero(ap.act, before, Drain(Residue(s[..p]) + s[p..ch.pos]).tokens);
      } else if r == -1 && !ch.faulty {
        FullExactlyAtLimit(s, cap, p);
      }
      if r != 0 && r != 1 {
        return Some(r);
      }
    }
    return None;
  }

  lemma {:induction false} NeverZero(act: seq<Deed> -> Code, log: seq<Deed>, lines: seq<string>)
    requires forall l :: act(l) != 0
    ensures RunLines(AsClient, act, log, lines).code != 0
    decreases |lines|
  {
    hide Search, Command, Parse;
    if lines != [] {
      var x := HandleLine(AsClient, act, log, lines[0]);
      NeverZero(act, x.log, lines[1..]);
    }
  }

  // ----- the argument of a command

  const PORT_MARKS: set<string> := {"SOCKET", " ", "\t"}

  predicate IsPort(p: Parsed) {
    p.errno.NoError? && 0 <= p.number <= 65536
  }

  /** The port in the remainder of a RESULT or SENDLIST command. */
  ghost function PortArgument(rest: string): Option<int>
  {
    PortMarksUsable();
    var c := Search(rest, PORT_MARKS);
    var p := Parse(CString(Token(rest, c)));
    if c.len == 0 || !IsPort(p) then None else Some(p.number)
  }

  lemma PortMarksUsable()
    ensures Usable(PORT_MARKS)
  {
  }

  /** The parsing half of client_resultAction (keywordFirst) and of
      client_sendlistAction: they list the separators in different orders. */
  method TakePort(ap: ActionParameters, keywordFirst: bool) returns (port: Option<int>)
    requires ap.Valid()
    modifies ap.comline, ap.comline.buf, ap.comword, ap.comword.buf
    ensures ap.Valid() && port == PortArgument(old(ap.comline.Content()))
  {
    hide Search, Parse;
    var seps := if keywordFirst then ["SOCKET", " ", "\t"] else [" ", "\t", "SOCKET"];
    assert ToSet(seps) == PORT_MARKS;
    var r := GetTokenFromBuffer(ap.comline, ap.comword, seps);
    if r != 1 {
      return None;
    }
    var nr, errno := MyStrtol(CString(ap.comword.buf[..ap.comword.buflen]));
    if !errno.NoError? || nr < 0 || nr > 65536 {
      return None;
    }
    return Some(nr);
  }
}
