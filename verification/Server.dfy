/** The server's event loop for one client. */
module Server {
  import opened Bytes
  import opened Buffers
  import opened Lines
  import opened Session
  import opened Protocol

  /** What poll() reports to the event loop. */
  datatype PollEvent = Readable | SignalReady(complete: bool, quit: bool) | Interrupted | Failed | Unexpected

  /** Events that leave the loop running: data, an interrupted call, and a signal
      other than SIGINT and SIGQUIT, such as the SIGCHLD of a child that has ended. */
  predicate Harmless(e: PollEvent) {
    e.Readable? || e.Interrupted? || e == SignalReady(true, false)
  }

  function Reads(events: seq<PollEvent>): nat
    decreases |events|
  {
    if events == [] then 0
    else Reads(events[..|events| - 1]) + if events[|events| - 1].Readable? then 1 else 0
  }

  /** comfork, over the events that poll() reports; None means that it is still
      running. The calls made so far are always those of the bytes read so far.
      It handles `n` events and then ends at the next one: at the first that is not
      harmless, with the code for it, or at a read that ends the session. Then it
      has made exactly the calls of the session's outcome, which depends on the bytes
      and the buffer size alone: not on how the stream was cut into reads, nor on
      the signals in between. Enough reads always end it. */
  method Comfork(ap: ActionParameters, ch: Channel, events: seq<PollEvent>) returns (ret: Option<int>, n: nat)
    requires ap.Valid() && ch.Valid() && ch !in ap.Repr()
    requires ch.pos == 0 && ap.log == [] && ap.combuf.Content() == ""
    modifies ap.Repr(), ch
    ensures ap.Valid() && ch.Valid() && ch.pos <= Limit(ch.stream, ap.Cap()) && ap.prot == old(ap.prot)
    ensures ap.log == RunLines(AsServer(ap.prot), ap.act, [], LinesOf(ch.stream[..ch.pos])).log
    ensures n <= |events| && (ret.Some? <==> n < |events|) && forall i :: 0 <= i < n ==> Harmless(events[i])
    ensures Reads(events) > |ch.stream| + old(ch.interrupts) ==> ret.Some?
    ensures Reads(events[..n]) <= |ch.stream| + old(ch.interrupts)
    ensures n < |events| && !Harmless(events[n]) ==>
      && ret.value == (if events[n].Failed? then -1 else if events[n] == SignalReady(true, true) then -2 else -3)
      && !RunLines(AsServer(ap.prot), ap.act, [], LinesOf(ch.stream[..ch.pos])).stopped
    ensures n < |events| && Harmless(events[n]) ==> events[n].Readable? && ret.value in {0, -1, -2, -3}
    ensures n < |events| && Harmless(events[n]) ==>
      var x := Outcome(AsServer(ap.prot), ap.act, ch.stream, ap.Cap());
      || (ap.log == x.log && ret.value == (if x.stopped then x.code else 0)
          && (!x.stopped ==> ch.pos == Limit(ch.stream, ap.Cap())))
      || (ch.faulty && ret.value == -1)
  {
    hide Drain, LinesOf, Limit, RunLines;
    ghost var s, cap, peer := ch.stream, ap.Cap(), AsServer(ap.prot);
    Start(peer, ap.act, s);
    n := 0;
    while n < |events|
      invariant n <= |events| && forall i :: 0 <= i < n ==> Harmless(events[i])
      invariant ap.Valid() && ch.Valid() && ch.pos <= Limit(s, cap) && ap.prot == old(ap.prot)
      invariant RunLines(peer, ap.act, [], LinesOf(s[..ch.pos])) == Run(ap.log, false, 1)
      invariant ap.combuf.Content() == Residue(s[..ch.pos])
      invariant Reads(events[..n]) + ch.interrupts <= ch.pos + old(ch.interrupts)
    {
      assert events[..n + 1][..n] == events[..n];
      match events[n] {
      case Interrupted =>
      case Failed => return Some(-1), n;
      case Readable =>
        ghost var p, before := ch.pos, ap.log;
        var r := ap.ProcessIncomingData(ch);
        if ch.pos > p {
          Round(peer, ap.act, s, cap, p, ch.pos, before);
          ServerCodes(ap.prot, ap.act, before, Drain(Residue(s[..p]) + s[p..ch.pos]).tokens);
        } else if r == 0 {
          FullExactlyAtLimit(s, cap, p);
        }
        if r in {0, -1, -2, -3} {
          return Some(r), n;
        }
      case SignalReady(complete, quit) =>
        if !complete {
          return Some(-3), n;
        }
        if quit {
          return Some(-2), n;
        }
      case Unexpected => return Some(-3), n;
      }
      n := n + 1;
    }
    assert events[..|events|] == events;
    return None, n;
  }

  /** A server session only ever ends with a code the event loop knows. */
  lemma ServerCodes(table: seq<string>, act: seq<Deed> -> Code, log: seq<Deed>, lines: seq<string>)
    ensures var x := RunLines(AsServer(table), act, log, lines); x.stopped ==> -3 <= x.code <= 0
  {
    OnlyTheLastStops(table, act, log, lines, 0);
  }

  /** No name of the server's table hides another: each reaches its own action, in
      whatever case it is typed. */
  lemma NamesReachTheirActions(k: nat, word: string)
    requires k < |SERVER_TABLE| && SameIgnoringCase(SERVER_TABLE[k], word)
    ensures Lookup(SERVER_TABLE, word) == k
  {
    var j := Lookup(SERVER_TABLE, word);
    assert j <= k;
    assert SameIgnoringCase(SERVER_TABLE[j], word);
    assert Lower(SERVER_TABLE[j][0]) == Lower(SERVER_TABLE[k][0]) && Lower(SERVER_TABLE[j][1]) == Lower(SERVER_TABLE[k][1]);
  }

  predicate IsQuit(deed: Deed) {
    deed.Invoked? && deed.call.action == Lookup(SERVER_TABLE, "QUIT")
  }

  /** As quitAction returns 0, nothing is ever called after a QUIT, whatever follows it
      in the stream, and the session then ends cleanly. */
  lemma QuitIsLast(act: seq<Deed> -> Code, stream: string, cap: nat, k: nat)
    requires forall log :: log != [] && IsQuit(log[|log| - 1]) ==> act(log) == 0
    ensures var x := Outcome(AsServer(SERVER_TABLE), act, stream, cap);
      k < |x.log| && IsQuit(x.log[k]) ==> k == |x.log| - 1 && x.stopped && x.code == 0
  {
    hide IsQuit, LinesOf, Limit, RunLines;
    var lines := LinesOf(stream[..Limit(stream, cap)]);
    var x := RunLines(AsServer(SERVER_TABLE), act, [], lines);
    OnlyTheLastStops(SERVER_TABLE, act, [], lines, k + 1);
    if k < |x.log| && IsQuit(x.log[k]) {
      var log := x.log[..k + 1];
      assert log[|log| - 1] == x.log[k];
      assert x.log[..|x.log|] == x.log;
    }
  }
}
