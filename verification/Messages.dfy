/** Messages between client and server: what one side prints, the other side
    takes apart again. */
module Messages {
  import opened Bytes
  import opened Tokens
  import opened Buffers
  import opened Lines
  import opened Decimal
  import opened Session
  import opened Protocol
  import opened Client

  // ----- cutting words off a line

  predicate IsBlank(c: char) {
    c == BLANK || c == TAB
  }

  predicate NoBlank(s: string) {
    forall i :: 0 <= i < |s| ==> !IsBlank(s[i])
  }

  lemma BlankAt(s: string, i: nat)
    ensures SepAt(s, i, BLANKS) == if i < |s| && IsBlank(s[i]) then [s[i]] else ""
  {
    var r := if i < |s| && IsBlank(s[i]) then [s[i]] else "";
    if i < |s| {
      assert s[i..i + 1] == [s[i]];
    }
    assert MatchAt(s, i, " ") <==> r == " ";
    assert MatchAt(s, i, "\t") <==> r == "\t";
    LongestUnique(s, i, BLANKS, r);
  }

  predicate AllBlank(s: string) {
    forall i :: 0 <= i < |s| ==> IsBlank(s[i])
  }

  lemma {:induction false} BlankRun(s: string, i: nat, j: nat)
    requires i <= j <= |s| && AllBlank(s[i..j]) && (j < |s| ==> !IsBlank(s[j]))
    ensures SkipSeps(s, i, BLANKS) == j
    decreases j - i
  {
    BlankAt(s, i);
    if i < j {
      assert s[i..j][0] == s[i];
      assert s[i + 1..j] == s[i..j][1..];
      BlankRun(s, i + 1, j);
    }
  }

  lemma {:induction false} RunIsBlank(s: string, i: nat)
    requires i <= |s|
    ensures AllBlank(s[i..SkipSeps(s, i, BLANKS)])
    decreases |s| - i
  {
    BlankAt(s, i);
    if i < |s| && IsBlank(s[i]) {
      RunIsBlank(s, i + 1);
      assert s[i..SkipSeps(s, i, BLANKS)] == [s[i]] + s[i + 1..SkipSeps(s, i + 1, BLANKS)];
    }
  }

  /** A line as blanks, a word, one blank or the end, and a remainder. */
  ghost predicate Parts(line: string, lead: string, word: string, sep: string, rest: string) {
    && line == lead + word + sep + rest
    && AllBlank(lead) && word != "" && NoBlank(word)
    && |sep| <= 1 && AllBlank(sep) && (sep == "" ==> rest == "")
  }

  lemma SearchOfParts(line: string, lead: string, word: string, sep: string, rest: string)
    requires Parts(line, lead, word, sep, rest)
    ensures Search(line, BLANKS) == Cut(sep != "", |lead|, |word|, |lead| + |word| + |sep|)
  {
    var i, j := |lead|, |lead| + |word|;
    assert line[0..i] == lead && line[i] == word[0];
    BlankRun(line, 0, i);
    forall k | i <= k <= j ensures SepAt(line, k, BLANKS) == if k < j then "" else sep {
      BlankAt(line, k);
      assert k < j ==> line[k] == word[k - i];
      assert sep != "" ==> line[j] == sep[0] && [sep[0]] == sep;
    }
    FindOfClear(line, i, j, BLANKS);
  }

  /** Any such division of a line is the one that a command is read from, inner
      and leading blanks of the remainder included. */
  lemma CommandOfParts(table: seq<string>, line: string, lead: string, word: string, sep: string, rest: string)
    requires Parts(line, lead, word, sep, rest)
    ensures Command(table, line) == Some(Invocation(Lookup(table, CString(word)), word, rest))
  {
    hide Lookup, Search;
    SearchOfParts(line, lead, word, sep, rest);
    var n := |lead| + |word|;
    assert line[|lead|..n] == word && line[n + |sep|..] == rest;
  }

  /** The token of a search between blanks is a word behind blanks. */
  lemma WordOfSearch(line: string)
    requires Usable(BLANKS)
    ensures var c := Search(line, BLANKS);
      && AllBlank(line[..c.start]) && NoBlank(Token(line, c))
      && AllBlank(line[c.start + c.len..c.full]) && c.full <= c.start + c.len + 1
      && (c.full == c.start + c.len ==> c.full == |line|)
  {
    var c := Search(line, BLANKS);
    var j := c.start + c.len;
    RunIsBlank(line, 0);
    assert line[0..c.start] == line[..c.start];
    forall i | 0 <= i < c.len ensures !IsBlank(Token(line, c)[i]) {
      assert SepAt(line, c.start + i, BLANKS) == "";
      BlankAt(line, c.start + i);
    }
    BlankAt(line, j);
  }

  /** ... and every line has one, unless it is all blanks: then no action is
      called. */
  lemma CommandSplits(table: seq<string>, line: string) returns (lead: string, sep: string)
    ensures Command(table, line).None? <==> AllBlank(line)
    ensures Command(table, line).Some? ==>
      Parts(line, lead, Command(table, line).value.word, sep, Command(table, line).value.rest)
  {
    hide Lookup, Search;
    BlanksClean();
    var c := Search(line, BLANKS);
    var j := c.start + c.len;
    lead, sep := line[..c.start], line[j..c.full];
    WordOfSearch(line);
    if c.len == 0 {
      assert lead == line;
    } else {
      var word := Token(line, c);
      assert !IsBlank(word[0]) && word[0] == line[c.start];
      assert line == lead + word + sep + line[c.full..];
    }
  }

  lemma CommandOf(table: seq<string>, word: string, rest: string)
    requires word != "" && NoBlank(word)
    ensures Command(table, word + " " + rest) == Some(Invocation(Lookup(table, CString(word)), word, rest))
  {
    assert word + " " + rest == "" + word + " " + rest;
    CommandOfParts(table, word + " " + rest, "", word, " ", rest);
  }

  // ----- lines of printed messages

  /** A printed line in front of more bytes is their first line. */
  lemma LinesOfLine(line: string, more: string)
    requires LF !in line && Chomp(line) != ""
    ensures LinesOf(line + "\n" + more) == [Chomp(line)] + LinesOf(more)
  {
    hide LinesOf, Chomp;
    var s := line + "\n" + more;
    assert s[..|line|] == line && s[|line|] == LF && s[|line| + 1..] == more;
    IndexOfUnique(s, LF, |line|);
    LinesStep(s);
  }

  /** Nothing is left of a line once its line feed is there. */
  lemma LineLeavesNothing(line: string, more: string)
    requires LF !in line && Chomp(line) != ""
    ensures Residue(line + "\n" + more) == Residue(more)
  {
    hide Search, Chomp, Drain;
    var s := line + "\n";
    assert s[..|line|] == line && s[|line|] == LF;
    IndexOfUnique(s, LF, |line|);
    FirstLineFound(s);
    DrainStep(s);
    DrainStep("");
    assert s[|line| + 1..] == "";
    DrainAppend(s, more);
    assert "" + more == more;
  }

  /** The lines one after the other, each with its line feed. */
  function Joined(lines: seq<string>): string {
    if lines == [] then "" else lines[0] + "\n" + Joined(lines[1..])
  }

  /** One line each, and not empty even without a trailing carriage return. */
  ghost predicate PlainLines(lines: seq<string>) {
    forall i :: 0 <= i < |lines| ==> LF !in lines[i] && Chomp(lines[i]) != ""
  }

  function Chomped(lines: seq<string>): seq<string> {
    if lines == [] then [] else [Chomp(lines[0])] + Chomped(lines[1..])
  }

  lemma {:induction false} LinesOfJoined(lines: seq<string>)
    requires PlainLines(lines)
    ensures LinesOf(Joined(lines)) == Chomped(lines)
  {
    hide LinesOf, Chomp;
    if lines == [] {
      NoLineFeedNoLine("");
    } else {
      LinesOfLine(lines[0], Joined(lines[1..]));
      LinesOfJoined(lines[1..]);
    }
  }

  /** Lines that fit one by one never fill the buffer, wherever a read ends. */
  lemma {:induction false} JoinedFits(lines: seq<string>, cap: nat, k: nat)
    requires PlainLines(lines) && 0 < cap && forall i :: 0 <= i < |lines| ==> |lines[i]| < cap
    requires k <= |Joined(lines)|
    ensures |Residue(Joined(lines)[..k])| < cap
    decreases |lines|
  {
    hide Residue, Chomp;
    if lines == [] {
      assert Joined(lines)[..k] == "";
    } else {
      var line, rest := lines[0], Joined(lines[1..]);
      var s := Joined(lines)[..k];
      if k > |line| {
        var j := k - |line| - 1;
        assert s == line + "\n" + rest[..j];
        LineLeavesNothing(line, rest[..j]);
        JoinedFits(lines[1..], cap, j);
      }
    }
  }

  lemma JoinedOutcome(lines: seq<string>, peer: Peer, act: seq<Deed> -> Code, cap: nat)
    requires PlainLines(lines) && 0 < cap && forall i :: 0 <= i < |lines| ==> |lines[i]| < cap
    ensures Outcome(peer, act, Joined(lines), cap) == RunLines(peer, act, [], Chomped(lines))
  {
    hide Outcome, Joined, PlainLines, Residue, LinesOf, RunLines;
    forall k | 0 <= k < |Joined(lines)| ensures Fits(Joined(lines), k, cap) {
      JoinedFits(lines, cap, k);
    }
    NoOverflowAllLines(peer, act, Joined(lines), cap);
    LinesOfJoined(lines);
  }

  // ----- the port handshake

  datatype Kind = Result | Sendlist

  function KindName(k: Kind): string {
    match k
    case Result => "RESULT"
    case Sendlist => "SENDLIST"
  }

  /** What searchAction (through reply) and filelistAction write, without the line
      feed; 300 needs no padding in "%3d". */
  function Offer(k: Kind, port: nat): string {
    Print(REP_COMMAND) + " " + KindName(k) + " " + "SOCKET " + Print(port)
  }

  function OfferLines(os: seq<(Kind, nat)>): seq<string> {
    if os == [] then [] else [Offer(os[0].0, os[0].1)] + OfferLines(os[1..])
  }

  function Offers(os: seq<(Kind, nat)>): string {
    Joined(OfferLines(os))
  }

  /** The call a client makes on an offer. */
  function OfferCall(k: Kind, port: nat): Invocation {
    Invocation(if k.Result? then 0 else 1, KindName(k), "SOCKET " + Print(port))
  }

  lemma KindIsWord(k: Kind)
    ensures KindName(k) != "" && NoBlank(KindName(k)) && CString(KindName(k)) == KindName(k)
  {
    hide CString;
    CStringOfClean(KindName(k));
  }

  lemma KindIsFound(k: Kind)
    ensures Lookup(CLIENT_TABLE, KindName(k)) == if k.Result? then 0 else 1
  {
  }

  /** What reply() prints for one of the five codes, "%3d %s", read back: the same
      code, and a text or a command. */
  lemma ReplyIsRead(act: seq<Deed> -> Code, log: seq<Deed>, code: int, msg: string)
    requires IsReplyCode(Parsed(code, NoError)) && NUL !in msg
    ensures HandleReply(act, log, Print(code) + " " + msg) ==
      if code == REP_COMMAND then HandleCommand(CLIENT_TABLE, act, log, msg)
      else Doing(act, log, Shown(code, if code == REP_OK then "OK" else msg))
  {
    hide Search, Print, Parse, HandleCommand, CString;
    var line, word := Print(code) + " " + msg, Print(code);
    NumberIsWord(code);
    SearchOfParts(line, "", word, " ", msg);
    assert line[0..|word|] == word && line[|word| + 1..] == msg;
    ParsePrint(code);
    CStringOfClean(msg);
  }

  /** The word before the first blank of a reply is one of the five codes. */
  ghost predicate IsCodeWord(word: string, code: int) {
    code in {REP_OK, REP_TEXT, REP_COMMAND, REP_WARN, REP_FATAL} && ReadsAs(CString(word), code)
  }

  lemma BlankReply(act: seq<Deed> -> Code, log: seq<Deed>, line: string)
    requires AllBlank(line)
    ensures HandleReply(act, log, line) == Run(log, true, 2)
  {
    hide Search, Parse, Lookup;
    var lead, sep := CommandSplits(CLIENT_TABLE, line);
  }

  lemma ReplyByNumber(act: seq<Deed> -> Code, log: seq<Deed>,
                      line: string, lead: string, word: string, sep: string, rest: string)
    requires Parts(line, lead, word, sep, rest)
    ensures var p := Parse(CString(word));
      HandleReply(act, log, line) ==
        if !IsReplyCode(p) then Run(log, true, -1)
        else if p.number == REP_COMMAND then HandleCommand(CLIENT_TABLE, act, log, rest)
        else Doing(act, log, Shown(p.number, if p.number == REP_OK then "OK" else CString(rest)))
  {
    hide Search, Parse, HandleCommand, CString;
    SearchOfParts(line, lead, word, sep, rest);
    var n := |lead| + |word|;
    assert line[|lead|..n] == word && line[n + |sep|..] == rest;
  }

  /** Any reply, from its parts: without one of the five codes it ends the session
      with -1; with 300 the remainder is a command; otherwise it is shown. */
  lemma ReplyOfParts(act: seq<Deed> -> Code, log: seq<Deed>,
                     line: string, lead: string, word: string, sep: string, rest: string)
    requires Parts(line, lead, word, sep, rest)
    ensures (forall code :: !IsCodeWord(word, code)) ==> HandleReply(act, log, line) == Run(log, true, -1)
    ensures forall code :: IsCodeWord(word, code) ==>
      (HandleReply(act, log, line) ==
        if code == REP_COMMAND then HandleCommand(CLIENT_TABLE, act, log, rest)
        else Doing(act, log, Shown(code, if code == REP_OK then "OK" else CString(rest))))
  {
    hide HandleReply, Parse, HandleCommand, CString, ReadsAs;
    ReplyByNumber(act, log, line, lead, word, sep, rest);
    forall code
      ensures IsCodeWord(word, code)
        <==> IsReplyCode(Parsed(code, NoError)) && Parse(CString(word)) == Parsed(code, NoError)
    {
      ParseReads(CString(word), code);
    }
    var p := Parse(CString(word));
    assert IsReplyCode(p) ==> p == Parsed(p.number, NoError);
  }

  /** First and second level: the reply code and the command word come off. */
  lemma OfferIsHandled(act: seq<Deed> -> Code, log: seq<Deed>, k: Kind, port: nat)
    ensures HandleReply(act, log, Offer(k, port)) == Doing(act, log, Invoked(OfferCall(k, port)))
  {
    hide Search, Print, Lookup, Parse, KindName, HandleReply;
    var rest := KindName(k) + " " + ("SOCKET " + Print(port));
    assert Offer(k, port) == Print(REP_COMMAND) + " " + rest;
    KindIsWord(k);
    KindIsFound(k);
    NumberIsWord(port);
    PrintedIsClean(port);
    assert NUL !in KindName(k) by {
      assert KindName(k) == CString(KindName(k));
    }
    ReplyIsRead(act, log, REP_COMMAND, rest);
    CommandOf(CLIENT_TABLE, KindName(k), "SOCKET " + Print(port));
  }

  lemma NumberIsWord(n: int)
    ensures Print(n) != "" && NoBlank(Print(n)) && CString(Print(n)) == Print(n)
  {
  }

  /** Third level, with the keyword itself as a separator: the number comes off. */
  lemma PortIsParsed(port: nat)
    requires port <= 65535
    ensures PortArgument("SOCKET " + Print(port)) == Some(port)
  {
    var s := "SOCKET " + Print(port);
    var n := |s|;
    assert s[0..6] == "SOCKET";
    assert MatchAt(s, 0, "SOCKET");
    MatchFirst(s, 0, " ");
    MatchFirst(s, 0, "\t");
    LongestUnique(s, 0, PORT_MARKS, "SOCKET");
    assert s[6..7] == " ";
    assert MatchAt(s, 6, " ");
    MatchFirst(s, 6, "SOCKET");
    MatchFirst(s, 6, "\t");
    LongestUnique(s, 6, PORT_MARKS, " ");
    forall i | 7 <= i <= n ensures SepAt(s, i, PORT_MARKS) == "" {
      NoMarkAt(s, i);
    }
    assert SkipSeps(s, 7, PORT_MARKS) == 7;
    assert SkipSeps(s, 6, PORT_MARKS) == 7;
    FindOfClear(s, 7, n, PORT_MARKS);
    assert Search(s, PORT_MARKS) == Cut(false, 7, n - 7, n);
    assert s[7..n] == Print(port);
    NumberIsWord(port);
    ParsePrint(port);
  }

  /** The first field between keyword and blanks is not empty and reads as a number
      up to 65536. */
  ghost predicate IsPortOf(rest: string, port: int) {
    exists parts, sep, c :: IsCut(rest, PORT_MARKS, parts, sep, c)
      && c.len > 0 && 0 <= port <= 65536 && ReadsAs(CString(rest[c.start..c.start + c.len]), port)
  }

  /** What any argument of a command comes to, from its first field alone. */
  lemma PortIff(rest: string, port: int)
    ensures PortArgument(rest) == Some(port) <==> IsPortOf(rest, port)
    ensures PortArgument(rest).None? <==> forall n :: !IsPortOf(rest, n)
  {
    hide Search, Parse, CString, ReadsAs;
    PortMarksUsable();
    var parts, sep := SearchIsCut(rest, PORT_MARKS);
    var c := Search(rest, PORT_MARKS);
    var word := CString(Token(rest, c));
    assert IsCut(rest, PORT_MARKS, parts, sep, c);
    forall n ensures IsPortOf(rest, n) <==> c.len > 0 && 0 <= n <= 65536 && Parse(word) == Parsed(n, NoError) {
      hide IsCut;
      ParseReads(word, n);
      forall parts, sep, d | IsCut(rest, PORT_MARKS, parts, sep, d) ensures d == c {
        CutIsSearch(rest, PORT_MARKS, parts, sep, d);
      }
    }
    var p := Parse(word);
    assert IsPort(p) ==> p == Parsed(p.number, NoError);
  }

  lemma NoMarkAt(s: string, i: nat)
    requires i < |s| ==> IsDigit(s[i]) || s[i] == '-'
    ensures SepAt(s, i, PORT_MARKS) == ""
  {
  }

  lemma OfferIsALine(k: Kind, port: nat)
    ensures LF !in Offer(k, port) && Chomp(Offer(k, port)) == Offer(k, port) != ""
  {
    hide Print;
    PrintedIsClean(REP_COMMAND);
    PrintedIsClean(port);
    var line, number := Offer(k, port), Print(port);
    assert line[|line| - 1] == number[|number| - 1];
  }

  /** The calls of a client that gets offers only, up to the first that ends it. */
  ghost function OfferRun(act: seq<Deed> -> Code, log: seq<Deed>, os: seq<(Kind, nat)>): Run
    decreases |os|
  {
    if os == [] then Run(log, false, 1)
    else
      var x := Doing(act, log, Invoked(OfferCall(os[0].0, os[0].1)));
      if x.stopped then x else OfferRun(act, x.log, os[1..])
  }

  lemma {:induction false} OffersAreRun(act: seq<Deed> -> Code, log: seq<Deed>, os: seq<(Kind, nat)>)
    ensures RunLines(AsClient, act, log, OfferLines(os)) == OfferRun(act, log, os)
    decreases |os|
  {
    hide Offer, HandleReply, OfferCall;
    if os != [] {
      var (k, port) := os[0];
      OfferIsHandled(act, log, k, port);
      RunLinesStep(AsClient, act, log, Offer(k, port), OfferLines(os[1..]));
      OffersAreRun(act, HandleReply(act, log, Offer(k, port)).log, os[1..]);
    }
  }

  lemma OfferIsShort(k: Kind, port: nat)
    requires port <= 65535
    ensures |Offer(k, port)| + 2 <= 32
  {
    hide Digits;
    assert Power10(5) == 10 * Power10(4) == 100 * Power10(3) == 1000 * Power10(2) == 10000 * Power10(1);
    assert Power10(3) == 10 * Power10(2) == 100 * Power10(1) == 1000 * Power10(0);
    DigitsAreFew(port, 5);
    DigitsAreFew(REP_COMMAND, 3);
  }

  lemma {:induction false} OffersAreLines(os: seq<(Kind, nat)>)
    requires forall i :: 0 <= i < |os| ==> os[i].1 <= 65535
    ensures PlainLines(OfferLines(os)) && Chomped(OfferLines(os)) == OfferLines(os)
    ensures forall i :: 0 <= i < |OfferLines(os)| ==> |OfferLines(os)[i]| < 31
    decreases |os|
  {
    hide Offer, Chomp;
    if os != [] {
      OfferIsALine(os[0].0, os[0].1);
      OfferIsShort(os[0].0, os[0].1);
      OffersAreLines(os[1..]);
      assert OfferLines(os)[1..] == OfferLines(os[1..]);
    }
  }

  /** The handshake: whatever offers a server sends, and however the stream is cut
      into reads, the client makes the matching calls in order, and each call's
      argument parses back to the port that was offered. */
  lemma {:induction false} PortHandshake(act: seq<Deed> -> Code, os: seq<(Kind, nat)>, cap: nat)
    requires 31 <= cap && forall i :: 0 <= i < |os| ==> os[i].1 <= 65535
    ensures Outcome(AsClient, act, Offers(os), cap) == OfferRun(act, [], os)
    ensures forall i :: 0 <= i < |os| ==> PortArgument(OfferCall(os[i].0, os[i].1).rest) == Some(os[i].1)
  {
    hide OfferLines, Outcome, PortArgument, OfferRun, RunLines, PlainLines;
    OffersAreLines(os);
    JoinedOutcome(OfferLines(os), AsClient, act, cap);
    OffersAreRun(act, [], os);
    forall i | 0 <= i < |os| ensures PortArgument(OfferCall(os[i].0, os[i].1).rest) == Some(os[i].1) {
      PortIsParsed(os[i].1);
    }
  }

  // ----- relaying user commands

  /** What passOnAction writes: both strings end at their first NUL. */
  function Relayed(call: Invocation): string {
    CString(call.word) + " " + CString(call.rest) + "\n"
  }

  /** passOnAction, on the word and the remainder that processCommand left. */
  method PassOnAction(ap: ActionParameters, serverfd: Sink) returns (ret: int)
    requires ap.Valid()
    modifies ap.comline, ap.comline.buf, ap.comword, ap.comword.buf, serverfd
    ensures ap.Valid() && ap.comline.Content() == "" && ap.comword.Content() == ""
    ensures ret == if |serverfd.written| > |old(serverfd.written)| then 1 else -1
    ensures var call := Invocation(0, old(ap.comword.Content()), old(ap.comline.Content()));
      && old(serverfd.written) <= serverfd.written <= old(serverfd.written) + Relayed(call)
      && (serverfd.reliable ==> ret == 1 && serverfd.written == old(serverfd.written) + Relayed(call))
  {
    var data := CString(ap.comword.buf[..ap.comword.buflen]) + " " + CString(ap.comline.buf[..ap.comline.buflen]) + "\n";
    ret := serverfd.WriteWrapper(data);
    ap.comline.Flush();
    ap.comword.Flush();
    ret := if ret < 1 then -1 else 1;
  }

  /** Every command of the server except HELP is one that the client itself does not
      know, in whatever case it is typed, and so is relayed. */
  lemma ServerCommandsAreRelayed(k: nat, word: string)
    requires k < |SERVER_TABLE| && Uppercase(word) == SERVER_TABLE[k]
    ensures Lookup(STDIN_TABLE, word) == |STDIN_TABLE| <==> SERVER_TABLE[k] != "HELP"
  {
    hide Uppercase;
    forall i | 0 <= i < |STDIN_TABLE| ensures SameIgnoringCase(STDIN_TABLE[i], word) <==> STDIN_TABLE[i] == SERVER_TABLE[k] {
      SameIffUppercase(STDIN_TABLE[i], word);
      UppercaseOfUpper(STDIN_TABLE[i]);
    }
    assert STDIN_TABLE[4] == "HELP";
  }

  lemma UppercaseOfUpper(s: string)
    requires forall i :: 0 <= i < |s| ==> !('a' <= s[i] <= 'z')
    ensures Uppercase(s) == s
  {
  }

  lemma InheritsClean(line: string, lead: string, word: string, sep: string, rest: string)
    requires Parts(line, lead, word, sep, rest)
    ensures forall x :: x !in line ==> x !in word && x !in rest
  {
  }

  /** What the server reads from a relayed call: one line, and in it the same word
      and the remainder less one trailing carriage return. */
  lemma RelayedIsRead(user: seq<string>, table: seq<string>, line: string)
    requires NUL !in line && LF !in line && Command(user, line).Some?
    ensures var call := Command(user, line).value;
      var got := call.word + " " + Chomp(call.rest);
      && LinesOf(Relayed(call)) == [got]
      && Command(table, got) == Some(Invocation(Lookup(table, call.word), call.word, Chomp(call.rest)))
  {
    hide LinesOf, Search, Lookup;
    var lead, sep := CommandSplits(user, line);
    hide Command;
    var call := Command(user, line).value;
    InheritsClean(line, lead, call.word, sep, call.rest);
    CStringOfClean(call.word);
    CStringOfClean(call.rest);
    var sent := call.word + " " + call.rest;
    assert Chomp(sent) == call.word + " " + Chomp(call.rest);
    assert Relayed(call) == sent + "\n" + "";
    LinesOfLine(sent, "");
    NoLineFeedNoLine("");
    CommandOf(table, call.word, Chomp(call.rest));
  }

  /** A single line that the buffer cannot hold is never handled. */
  lemma LongLineIsStuck(line: string, peer: Peer, act: seq<Deed> -> Code, cap: nat)
    requires LF !in line && cap <= |line|
    ensures Outcome(peer, act, line + "\n", cap).log == []
  {
    hide LinesOf, Limit, Drain, HandleLine;
    var s := line + "\n";
    assert s[..cap] == line[..cap];
    NoLineFeedNoLine(s[..cap]);
    OverflowIff(s, cap);
    var m := Limit(s, cap);
    assert s[..m] == line[..m];
    NoLineFeedNoLine(s[..m]);
  }

  lemma RelayedIsHandled(user: seq<string>, table: seq<string>, act: seq<Deed> -> Code, line: string, cap: nat)
    requires NUL !in line && LF !in line && Command(user, line).Some?
    requires |Relayed(Command(user, line).value)| <= cap
    ensures var call := Command(user, line).value;
      Outcome(AsServer(table), act, Relayed(call), cap).log
        == [Invoked(Invocation(Lookup(table, call.word), call.word, Chomp(call.rest)))]
  {
    hide LinesOf, Search, Lookup, Limit, Relayed;
    var call := Command(user, line).value;
    RelayedIsRead(user, table, line);
    var peer, got := AsServer(table), call.word + " " + Chomp(call.rest);
    ShortStreamFits(Relayed(call), cap);
    NoOverflowAllLines(peer, act, Relayed(call), cap);
    RunLinesStep(peer, act, [], got, []);
    assert [got] + [] == [got];
    RunLinesStep(peer, act, HandleLine(peer, act, [], got).log, "", []);
  }

  /** A session on one line without a NUL never calls an action with one. */
  lemma CleanLineCleanCall(line: string, table: seq<string>, act: seq<Deed> -> Code, cap: nat, call: Invocation)
    requires LF !in line && NUL !in line && |line| + 1 <= cap
    requires Outcome(AsServer(table), act, line + "\n", cap).log == [Invoked(call)]
    ensures NUL !in call.word && NUL !in call.rest
  {
    hide Search, Lookup, Limit, LinesOf;
    var s, peer := line + "\n", AsServer(table);
    ShortStreamFits(s, cap);
    NoOverflowAllLines(peer, act, s, cap);
    assert s[..|line|] == line && s[|line|] == LF && s[|line| + 1..] == "";
    IndexOfUnique(s, LF, |line|);
    LinesStep(s);
    NoLineFeedNoLine("");
    var got := Chomp(line);
    RunLinesStep(peer, act, [], got, []);
    assert got != "" && LinesOf(s) == [got] + [];
    var x := HandleLine(peer, act, [], got);
    RunLinesStep(peer, act, x.log, "", []);
    assert [got] + [] == [got] && x.log == [Invoked(call)];
    assert x.log[0] == Invoked(call);
    assert Command(table, got) == Some(call);
    var lead, sep := CommandSplits(table, got);
    InheritsClean(got, lead, call.word, sep, call.rest);
  }

  /** The relay is transparent exactly for lines without a NUL whose remainder does
      not end in a carriage return and that fit the server's buffer: then, and only
      then, a server session on the relayed bytes calls an action with the very word
      and remainder that the user typed. */
  lemma RelayIsTransparentIff(user: seq<string>, table: seq<string>, act: seq<Deed> -> Code, line: string, cap: nat)
    requires LF !in line && Command(user, line).Some?
    ensures var call := Command(user, line).value;
      Outcome(AsServer(table), act, Relayed(call), cap).log
        == [Invoked(Invocation(Lookup(table, call.word), call.word, call.rest))]
      <==> NUL !in line && !EndsWith(call.rest, CR) && |Relayed(call)| <= cap
  {
    hide Outcome, Command, Lookup;
    var call := Command(user, line).value;
    var sent := CString(call.word) + " " + CString(call.rest);
    var lead, sep := CommandSplits(user, line);
    InheritsClean(line, lead, call.word, sep, call.rest);
    SentIsClean(line, lead, call, sep);
    if |Relayed(call)| > cap {
      LongLineIsStuck(sent, AsServer(table), act, cap);
    } else if NUL in line {
      var back := Invocation(Lookup(table, call.word), call.word, call.rest);
      if Outcome(AsServer(table), act, Relayed(call), cap).log == [Invoked(back)] {
        CleanLineCleanCall(sent, table, act, cap, back);
      }
    } else {
      RelayedIsHandled(user, table, act, line, cap);
      assert Chomp(call.rest) == call.rest <==> !EndsWith(call.rest, CR);
    }
  }

  lemma SentIsClean(line: string, lead: string, call: Invocation, sep: string)
    requires LF !in line && Parts(line, lead, call.word, sep, call.rest)
    ensures var sent := CString(call.word) + " " + CString(call.rest);
      LF !in sent && NUL !in sent && Relayed(call) == sent + "\n"
    ensures NUL in line ==> NUL in call.word || NUL in call.rest
  {
    InheritsClean(line, lead, call.word, sep, call.rest);
    forall i | 0 <= i < |line| ensures IsBlank(line[i]) || line[i] in call.word || line[i] in call.rest {
      var n := |lead| + |call.word| + |sep|;
      if i < |lead| {
        assert line[i] == lead[i];
      } else if i < |lead| + |call.word| {
        assert line[i] == call.word[i - |lead|];
      } else if i < n {
        assert line[i] == sep[i - |lead| - |call.word|];
      } else {
        assert line[i] == call.rest[i - n];
      }
    }
  }

  // ----- relaying a whole session

  /** A command as it is read from a line without a NUL. */
  ghost predicate Relayable(call: Invocation) {
    call.word != "" && NoBlank(call.word)
    && NUL !in call.word && LF !in call.word && NUL !in call.rest && LF !in call.rest
  }

  lemma CommandIsRelayable(user: seq<string>, line: string)
    requires NUL !in line && LF !in line && Command(user, line).Some?
    ensures Relayable(Command(user, line).value)
  {
    hide Command;
    var lead, sep := CommandSplits(user, line);
    var call := Command(user, line).value;
    InheritsClean(line, lead, call.word, sep, call.rest);
  }

  function RelayLine(call: Invocation): string {
    call.word + " " + call.rest
  }

  function RelayLines(calls: seq<Invocation>): seq<string> {
    if calls == [] then [] else [RelayLine(calls[0])] + RelayLines(calls[1..])
  }

  /** What a client's relays put on the wire, one after the other. */
  function RelayedAll(calls: seq<Invocation>): string {
    if calls == [] then "" else Relayed(calls[0]) + RelayedAll(calls[1..])
  }

  /** The call that was typed, and the one that arrives, in the server's terms. */
  function Typed(table: seq<string>, call: Invocation): Invocation {
    Invocation(Lookup(table, call.word), call.word, call.rest)
  }

  function Arrived(table: seq<string>, call: Invocation): Invocation {
    Invocation(Lookup(table, call.word), call.word, Chomp(call.rest))
  }

  /** A session that makes these calls, up to the first that ends it. */
  ghost function CallRun(table: seq<string>, act: seq<Deed> -> Code, log: seq<Deed>, calls: seq<Invocation>,
                         asTyped: bool): (x: Run)
    ensures log <= x.log && |x.log| - |log| <= |calls|
    decreases |calls|
  {
    if calls == [] then Run(log, false, 1)
    else
      var x := Doing(act, log, Invoked(if asTyped then Typed(table, calls[0]) else Arrived(table, calls[0])));
      if x.stopped then x else CallRun(table, act, x.log, calls[1..], asTyped)
  }

  lemma {:induction false} RelaysAreLines(calls: seq<Invocation>, cap: nat)
    requires forall i :: 0 <= i < |calls| ==> Relayable(calls[i]) && |RelayLine(calls[i])| < cap
    ensures RelayedAll(calls) == Joined(RelayLines(calls)) && PlainLines(RelayLines(calls))
    ensures forall i :: 0 <= i < |RelayLines(calls)| ==> |RelayLines(calls)[i]| < cap
    decreases |calls|
  {
    if calls != [] {
      var call := calls[0];
      assert Relayable(call) && |RelayLine(call)| < cap;
      CStringOfClean(call.word);
      CStringOfClean(call.rest);
      RelaysAreLines(calls[1..], cap);
      assert RelayLines(calls)[1..] == RelayLines(calls[1..]);
      assert Chomp(RelayLine(call)) != "" by {
        assert |RelayLine(call)| >= 2;
      }
    }
  }

  lemma {:induction false} RelaysAreRun(table: seq<string>, act: seq<Deed> -> Code, log: seq<Deed>, calls: seq<Invocation>)
    requires forall i :: 0 <= i < |calls| ==> Relayable(calls[i])
    ensures RunLines(AsServer(table), act, log, Chomped(RelayLines(calls))) == CallRun(table, act, log, calls, false)
    decreases |calls|
  {
    hide Lookup, Command;
    if calls != [] {
      var call, rest := calls[0], Chomped(RelayLines(calls[1..]));
      assert Relayable(call);
      var got := call.word + " " + Chomp(call.rest);
      assert Chomp(RelayLine(call)) == got;
      assert RelayLines(calls)[1..] == RelayLines(calls[1..]);
      CommandOf(table, call.word, Chomp(call.rest));
      CStringOfClean(call.word);
      RunLinesStep(AsServer(table), act, log, got, rest);
      RelaysAreRun(table, act, HandleCommand(table, act, log, got).log, calls[1..]);
    }
  }

  /** A run on what arrives is the run on what was typed if and only if no call that
      it made had a remainder ending in a carriage return. */
  lemma {:induction false} SameRunIff(table: seq<string>, act: seq<Deed> -> Code, log: seq<Deed>, calls: seq<Invocation>)
    ensures var x := CallRun(table, act, log, calls, false);
      x == CallRun(table, act, log, calls, true) <==>
      forall i :: 0 <= i < |x.log| - |log| ==> !EndsWith(calls[i].rest, CR)
    decreases |calls|
  {
    hide Lookup;
    if calls != [] {
      var call, rest := calls[0], calls[1..];
      var x, y := CallRun(table, act, log, calls, false), CallRun(table, act, log, calls, true);
      assert x.log[|log|] == Invoked(Arrived(table, call)) && y.log[|log|] == Invoked(Typed(table, call));
      if !EndsWith(call.rest, CR) {
        var log' := log + [Invoked(Typed(table, call))];
        SameRunIff(table, act, log', rest);
        assert forall i :: 0 <= i < |rest| ==> rest[i] == calls[i + 1];
        assert forall i :: 1 <= i < |calls| ==> calls[i] == rest[i - 1];
      }
    }
  }

  /** A session on any number of relayed lines that fit the buffer, over any cut into
      reads, makes the calls that arrive, each with its word and its remainder less
      one trailing carriage return; and it is the session that was typed if and only
      if no call it made had lost anything. */
  lemma RelayedSession(table: seq<string>, act: seq<Deed> -> Code, calls: seq<Invocation>, cap: nat)
    requires 0 < cap && forall i :: 0 <= i < |calls| ==> Relayable(calls[i]) && |RelayLine(calls[i])| < cap
    ensures var x := Outcome(AsServer(table), act, RelayedAll(calls), cap);
      && x == CallRun(table, act, [], calls, false)
      && (x == CallRun(table, act, [], calls, true) <==>
          forall i :: 0 <= i < |x.log| ==> !EndsWith(calls[i].rest, CR))
  {
    hide Outcome, CallRun, RelayedAll, RelayLines, PlainLines, RunLines, Relayable;
    RelaysAreLines(calls, cap);
    JoinedOutcome(RelayLines(calls), AsServer(table), act, cap);
    RelaysAreRun(table, act, [], calls);
    SameRunIff(table, act, [], calls);
  }
}
