/** The resources of one connection and the drain loop over its lines. */
module Protocol {
  import opened Bytes
  import opened Tokens
  import opened Buffers
  import opened Tokenizer
  import opened Lines
  import opened Session

  class ActionParameters {
    const combuf: Buffer
    const comline: Buffer
    const comword: Buffer
    const act: seq<Deed> -> Code   // what each action returns, given all deeds so far
    var prot: seq<string>          // the names of the actions in force
    var log: seq<Deed>

    ghost function Repr(): set<object> {
      {this, combuf, combuf.buf, comline, comline.buf, comword, comword.buf}
    }

    ghost predicate Valid()
      reads Repr()
    {
      && combuf.Valid() && comline.Valid() && comword.Valid()
      && combuf != comline && comline != comword && combuf != comword
      && combuf.buf != comline.buf && comline.buf != comword.buf && combuf.buf != comword.buf
      && combuf.buf.Length == comline.buf.Length == comword.buf.Length
    }

    /** How many bytes the data buffer can hold. */
    ghost function Cap(): nat {
      if combuf.buf.Length == 0 then 0 else combuf.buf.Length - 1
    }

    /** initap: three buffers of one size. */
    constructor (bufsize: nat, prot: seq<string>, act: seq<Deed> -> Code)
      requires bufsize > 0
      ensures Valid() && fresh(Repr())
      ensures log == [] && combuf.Content() == "" && Cap() == bufsize - 1
      ensures this.prot == prot && this.act == act
    {
      combuf := new Buffer(bufsize);
      comline := new Buffer(bufsize);
      comword := new Buffer(bufsize);
      this.prot, this.act, log := prot, act, [];
    }

    /** validateToken */
    method ValidateToken() returns (k: nat)
      requires Valid()
      ensures k == Lookup(prot, CString(comword.Content()))
    {
      var word := CString(comword.buf[..comword.buflen]);
      k := 0;
      while k < |prot|
        invariant k <= |prot|
        invariant forall j :: 0 <= j < k ==> !SameIgnoringCase(prot[j], word)
      {
        if SameIgnoringCase(prot[k], word) {
          return;
        }
        k := k + 1;
      }
    }

    /** processCommand */
    method ProcessCommand() returns (code: int)
      requires Valid()
      modifies this, comline, comline.buf, comword, comword.buf
      ensures Valid() && combuf.Content() == old(combuf.Content()) && prot == old(prot)
      ensures var x := HandleCommand(prot, act, old(log), old(comline.Content()));
        log == x.log && code == x.code && (x.stopped <==> code <= 0)
    {
      assert ToSet([" ", "\t"]) == BLANKS;
      var r := GetTokenFromBuffer(comline, comword, [" ", "\t"]);
      if r < 0 {
        return r;
      } else if r == 0 {
        return 2;
      }
      var k := ValidateToken();
      log := log + [Invoked(Invocation(k, comword.buf[..comword.buflen], comline.buf[..comline.buflen]))];
      return act(log);
    }

    /** processIncomingData: one read, then every complete line. */
    method ProcessIncomingData(ch: Channel) returns (ret: int)
      requires Valid() && ch.Valid()
      modifies Repr(), ch
      ensures Valid() && ch.Valid() && old(ch.pos) <= ch.pos && prot == old(prot)
      ensures ch.interrupts <= old(ch.interrupts)
      ensures ch.pos - old(ch.pos) <= Cap() - |old(combuf.Content())|
      ensures ch.pos == old(ch.pos) ==>
        && log == old(log) && combuf.Content() == old(combuf.Content()) && ret in {0, 1, -1}
        && (ret == 0 ==> |combuf.Content()| == Cap() || ch.pos == |ch.stream|)
        && (ret == 1 ==> ch.interrupts < old(ch.interrupts))
        && (ret == -1 ==> ch.faulty)
      ensures ch.pos > old(ch.pos) ==>
        var d := Drain(old(combuf.Content()) + ch.stream[old(ch.pos)..ch.pos]);
        var x := RunLines(AsServer(prot), act, old(log), d.tokens);
        log == x.log && ret == x.code && (!x.stopped ==> combuf.Content() == d.rest)
    {
      hide Search, Command, HandleCommand, Drain, RunLines;
      var count := combuf.ReadFrom(ch);
      if count == -1 {
        return -1;
      } else if count == -2 {
        return 1;
      } else if count == 0 {
        return 0;
      }
      label Arrived:
      ghost var d := Drain(combuf.Content());
      ghost var x := RunLines(AsServer(prot), act, log, d.tokens);
      assert ToSet(["\r\n", "\n"]) == LINE_ENDS;
      DrainStep(combuf.Content());
      var r := GetTokenFromStreamBuffer(combuf, comline, ["\r\n", "\n"]);
      while r > 0
        invariant Valid() && unchanged@Arrived(ch) && prot == old(prot)
        invariant r > 0 ==>
          var rest := Drain(combuf.Content());
          x == RunLines(AsServer(prot), act, log, [comline.Content()] + rest.tokens) && rest.rest == d.rest
        invariant r <= 0 ==> r == 0 && x == RunLines(AsServer(prot), act, log, []) && combuf.Content() == d.rest
        decreases combuf.buflen, r
      {
        ghost var rest := Drain(combuf.Content());
        RunLinesStep(AsServer(prot), act, log, comline.Content(), rest.tokens);
        var code := ProcessCommand();
        if code <= 0 {
          return code;
        }
        DrainStep(combuf.Content());
        r := GetTokenFromStreamBuffer(combuf, comline, ["\r\n", "\n"]);
      }
      if r < 0 {
        return r;
      }
      RunLinesStep(AsServer(prot), act, log, "", []);
      return 1;
    }
  }
}
