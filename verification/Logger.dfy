/** The log: many processes write messages into a pipe under a semaphore, one
    process copies the pipe into the log file. */
module Logger {
  import opened Buffers

  /** logger: the buffer is empty before every read, so a read of nothing can only
      mean that the pipe has ended. 1 means that the file got every byte. */
  method CopyPipe(pipe: Channel, file: Sink) returns (r: int)
    requires pipe.Valid()
    modifies pipe, file
    ensures r == 1 || r == -1
    ensures r == 1 ==> file.written == old(file.written) + old(pipe.Rest()) && pipe.pos == |pipe.stream|
    ensures file.written <= old(file.written) + old(pipe.Rest())
    ensures !pipe.faulty && file.reliable ==> r == 1
  {
    var buf := new Buffer(4096);
    ghost var total := file.written + pipe.Rest();
    while true
      invariant pipe.Valid() && buf.Valid() && buf.Content() == "" && fresh(buf) && fresh(buf.buf) && buf.buf.Length == 4096
      invariant file.written + pipe.Rest() == total
      decreases |pipe.stream| - pipe.pos, pipe.interrupts
    {
      ghost var p, before := pipe.pos, file.written;
      var s := buf.ReadFrom(pipe);
      if s == -2 {
        continue;
      } else if s == -1 {
        return -1;
      } else if s == 0 {
        return 1;
      }
      ghost var data := buf.Content();
      Conserved(before, pipe.stream, p, pipe.pos, data);
      var t := buf.WriteTo(file);
      if s != t {
        return -1;
      }
    }
  }

  lemma Conserved(written: string, stream: string, p: nat, q: nat, data: string)
    requires p <= q <= |stream| && data == "" + stream[p..q]
    ensures |data| == q - p && data[..|data|] == data
    ensures written + stream[p..] == written + data + stream[q..]
    ensures forall t: nat :: t <= |data| ==> written + data[..t] <= written + stream[p..]
  {
  }

  // ----- the writers

  type Pid = nat

  /** Where a process stands that runs logmsg. */
  datatype Phase = Idle | Writing(k: nat) | Gone

  /** A process, the messages it has to log, how many of them it has logged, and
      what the kernel would add to the semaphore if it died now. */
  datatype Proc = Proc(phase: Phase, messages: seq<string>, next: nat, undo: int)

  /** What one process put into the pipe while it held the semaphore. */
  datatype Piece = Piece(who: Pid, text: string, whole: bool)

  datatype State = State(sem: int, pipe: string, pieces: seq<Piece>, procs: map<Pid, Proc>)

  function Flatten(pieces: seq<Piece>): string
    decreases |pieces|
  {
    if pieces == [] then "" else Flatten(pieces[..|pieces| - 1]) + pieces[|pieces| - 1].text
  }

  /** The whole messages of one process, in pipe order. */
  function WholeBy(pieces: seq<Piece>, p: Pid): seq<string>
    decreases |pieces|
  {
    if pieces == [] then []
    else
      var last := pieces[|pieces| - 1];
      WholeBy(pieces[..|pieces| - 1], p) + if last.who == p && last.whole then [last.text] else []
  }

  /** One byte of a message at a time; the pipe itself may cut a long write. */
  function Step(s: State, p: Pid): State
    requires p in s.procs
  {
    var x := s.procs[p];
    if x.next >= |x.messages| then s
    else
      var msg := x.messages[x.next];
      match x.phase
      case Idle =>
        if s.sem <= 0 then s
        else s.(sem := s.sem - 1, procs := s.procs[p := x.(phase := Writing(0), undo := x.undo + 1)])
      case Writing(k) =>
        if k < |msg| then s.(pipe := s.pipe + [msg[k]], procs := s.procs[p := x.(phase := Writing(k + 1))])
        else s.(sem := s.sem + 1, pieces := s.pieces + [Piece(p, msg, true)],
                procs := s.procs[p := Proc(Idle, x.messages, x.next + 1, x.undo - 1)])
      case Gone => s
  }

  /** Death at any point. What a dying writer has written stays in the pipe. */
  function Die(s: State, p: Pid): State
    requires p in s.procs
  {
    var x := s.procs[p];
    var t := s.(sem := s.sem + x.undo);
    if x.phase.Writing? && x.next < |x.messages| && 0 < x.phase.k <= |x.messages[x.next]| then
      var msg := x.messages[x.next];
      var whole := x.phase.k == |msg|;
      t.(pieces := s.pieces + [Piece(p, msg[..x.phase.k], whole)],
         procs := s.procs[p := Proc(Gone, x.messages, if whole then x.next + 1 else x.next, 0)])
    else t.(procs := s.procs[p := x.(phase := Gone, undo := 0)])
  }

  datatype Event = Run(p: Pid) | Kill(p: Pid)

  function Apply(s: State, e: Event): State {
    if e.p !in s.procs then s else if e.Run? then Step(s, e.p) else Die(s, e.p)
  }

  function Execute(s: State, es: seq<Event>): State
    decreases |es|
  {
    if es == [] then s else Execute(Apply(s, es[0]), es[1..])
  }

  ghost predicate Initial(s: State) {
    s.sem == 1 && s.pipe == "" && s.pieces == []
    && forall p :: p in s.procs ==> s.procs[p].phase == Idle && s.procs[p].next == 0 && s.procs[p].undo == 0
  }

  // ----- the invariant

  ghost function Holders(s: State): set<Pid> {
    set p | p in s.procs && s.procs[p].phase.Writing?
  }

  ghost predicate ProcOk(pipe: string, pieces: seq<Piece>, p: Pid, x: Proc) {
    && x.undo == (if x.phase.Writing? then 1 else 0)
    && x.next <= |x.messages| && WholeBy(pieces, p) == x.messages[..x.next]
    && (x.phase.Writing? ==>
          x.next < |x.messages| && x.phase.k <= |x.messages[x.next]|
          && pipe == Flatten(pieces) + x.messages[x.next][..x.phase.k])
  }

  /** A piece is a whole message of its process, or the non-empty start of the one
      that its process was writing when it died. */
  ghost predicate PieceOk(s: State, piece: Piece) {
    piece.who in s.procs
    && var x := s.procs[piece.who];
      if piece.whole then piece.text in x.messages
      else x.phase.Gone? && x.next < |x.messages| && "" < piece.text < x.messages[x.next]
  }

  ghost predicate Inv(s: State) {
    && 0 <= s.sem && s.sem + |Holders(s)| == 1
    && (Holders(s) == {} ==> s.pipe == Flatten(s.pieces))
    && (forall p :: p in s.procs ==> ProcOk(s.pipe, s.pieces, p, s.procs[p]))
    && (forall i :: 0 <= i < |s.pieces| ==> PieceOk(s, s.pieces[i]))
  }

  lemma InitialInv(s: State)
    requires Initial(s)
    ensures Inv(s)
  {
  }

  lemma OneHolder(s: State, p: Pid, q: Pid)
    requires Inv(s) && p in Holders(s) && q in Holders(s)
    ensures p == q && s.sem == 0
  {
    assert |Holders(s) - {p}| == |Holders(s)| - 1;
    assert q !in Holders(s) - {p};
  }

  lemma PieceAdded(pieces: seq<Piece>, piece: Piece, p: Pid)
    ensures Flatten(pieces + [piece]) == Flatten(pieces) + piece.text
    ensures WholeBy(pieces + [piece], p) == WholeBy(pieces, p) + if piece.who == p && piece.whole then [piece.text] else []
  {
  }

  /** A process moves from `s` to `t`; the others keep their part. */
  lemma OthersKept(s: State, t: State, p: Pid)
    requires Inv(s) && p in s.procs && p in t.procs && t.procs == s.procs[p := t.procs[p]]
    requires (t.pipe == s.pipe && t.pieces == s.pieces)
      || (p in Holders(s) && forall q :: q != p ==> WholeBy(t.pieces, q) == WholeBy(s.pieces, q))
    ensures forall q :: q in t.procs && q != p ==> ProcOk(t.pipe, t.pieces, q, t.procs[q])
    ensures Holders(t) == if t.procs[p].phase.Writing? then Holders(s) + {p} else Holders(s) - {p}
    ensures p in Holders(s) ==> Holders(s) == {p} && s.sem == 0
  {
    assert forall q :: q in Holders(t) <==> (if q == p then t.procs[p].phase.Writing? else q in Holders(s));
    forall q | q in t.procs && q != p ensures ProcOk(t.pipe, t.pieces, q, t.procs[q]) {
      assert ProcOk(s.pipe, s.pieces, q, s.procs[q]);
      if p in Holders(s) && q in Holders(s) {
        OneHolder(s, p, q);
      }
    }
    if p in Holders(s) {
      forall q | q in Holders(s) ensures q == p && s.sem == 0 {
        OneHolder(s, p, q);
      }
      assert Holders(s) == {p};
    }
  }

  lemma PiecesKept(s: State, t: State, p: Pid)
    requires Inv(s) && p in s.procs && p in t.procs && t.procs == s.procs[p := t.procs[p]]
    requires s.procs[p].phase.Gone? ==> t.procs[p] == s.procs[p]
    requires t.procs[p].messages == s.procs[p].messages
    ensures forall i :: 0 <= i < |s.pieces| ==> PieceOk(t, s.pieces[i])
  {
    hide ProcOk;
    forall i | 0 <= i < |s.pieces| ensures PieceOk(t, s.pieces[i]) {
      assert PieceOk(s, s.pieces[i]);
    }
  }

  /** A piece is closed: by the release of the semaphore or by death. */
  lemma PieceClosed(s: State, t: State, p: Pid, piece: Piece)
    requires Inv(s) && p in Holders(s) && piece.who == p
    requires p in t.procs && t.procs == s.procs[p := t.procs[p]] && !t.procs[p].phase.Writing? && t.sem == 1
    requires t.procs[p].messages == s.procs[p].messages
    requires t.pipe == s.pipe && t.pieces == s.pieces + [piece] && t.pipe == Flatten(s.pieces) + piece.text
    requires ProcOk(t.pipe, t.pieces, p, t.procs[p]) && PieceOk(t, piece)
    ensures Inv(t)
  {
    hide ProcOk;
    forall q ensures q != p ==> WholeBy(t.pieces, q) == WholeBy(s.pieces, q) {
      PieceAdded(s.pieces, piece, q);
    }
    PieceAdded(s.pieces, piece, p);
    OthersKept(s, t, p);
    PiecesKept(s, t, p);
  }

  /** The release of the semaphore closes a piece that is a whole message. */
  lemma Released(s: State, p: Pid)
    requires Inv(s) && p in Holders(s) && ProcOk(s.pipe, s.pieces, p, s.procs[p])
    requires s.procs[p].phase.k == |s.procs[p].messages[s.procs[p].next]|
    ensures Inv(Step(s, p))
  {
    hide Flatten, WholeBy;
    var x, t := s.procs[p], Step(s, p);
    var msg := x.messages[x.next];
    OneHolder(s, p, p);
    var piece := Piece(p, msg, true);
    PieceAdded(s.pieces, piece, p);
    assert x.messages[..x.next + 1] == x.messages[..x.next] + [msg];
    assert msg[..x.phase.k] == msg;
    hide Inv;
    PieceClosed(s, t, p, piece);
  }

  lemma StepInv(s: State, p: Pid)
    requires Inv(s) && p in s.procs
    ensures Inv(Step(s, p))
  {
    hide Flatten, WholeBy;
    var x, t := s.procs[p], Step(s, p);
    assert ProcOk(s.pipe, s.pieces, p, x);
    if t != s {
      var msg := x.messages[x.next];
      if x.phase.Writing? && x.phase.k >= |msg| {
        hide Step, Inv;
        Released(s, p);
      } else {
        if x.phase.Writing? {
          assert msg[..x.phase.k + 1] == msg[..x.phase.k] + [msg[x.phase.k]];
        }
        hide Inv;
        NoPieceClosed(s, t, p);
      }
    }
  }

  lemma NoPieceClosed(s: State, t: State, p: Pid)
    requires Inv(s) && p in s.procs && !s.procs[p].phase.Gone? && (p in Holders(s) || t.pipe == s.pipe)
    requires t.pieces == s.pieces && p in t.procs && t.procs == s.procs[p := t.procs[p]]
    requires ProcOk(t.pipe, t.pieces, p, t.procs[p]) && t.procs[p].phase.Writing?
    requires t.procs[p].messages == s.procs[p].messages
    requires t.sem == 0 && (p in Holders(s) || s.sem == 1)
    ensures Inv(t)
  {
    hide ProcOk;
    OthersKept(s, t, p);
    PiecesKept(s, t, p);
    assert Holders(t) == {p} by {
      if p !in Holders(s) {
        assert |Holders(s)| == 0;
      }
    }
  }

  /** Death in the middle of a message, or right behind it, closes its piece. */
  lemma WriterDies(s: State, p: Pid)
    requires Inv(s) && p in Holders(s) && s.procs[p].phase.k > 0
    ensures Inv(Die(s, p))
  {
    hide Flatten, WholeBy;
    var x, t := s.procs[p], Die(s, p);
    assert ProcOk(s.pipe, s.pieces, p, x);
    OneHolder(s, p, p);
    var msg, k := x.messages[x.next], x.phase.k;
    var piece := Piece(p, msg[..k], k == |msg|);
    PieceAdded(s.pieces, piece, p);
    assert k == |msg| ==> msg[..k] == msg && x.messages[..x.next + 1] == x.messages[..x.next] + [msg];
    assert PieceOk(t, piece);
    hide Inv;
    PieceClosed(s, t, p, piece);
  }

  /** Death before the first byte leaves no trace. */
  lemma WriterVanishes(s: State, p: Pid)
    requires Inv(s) && p in Holders(s) && s.procs[p].phase.k == 0
    ensures Inv(Die(s, p))
  {
    hide Flatten, WholeBy;
    var x, t := s.procs[p], Die(s, p);
    assert ProcOk(s.pipe, s.pieces, p, x);
    assert x.messages[x.next][..0] == "" && s.pipe == Flatten(s.pieces);
    assert ProcOk(t.pipe, t.pieces, p, t.procs[p]);
    hide ProcOk, PieceOk;
    OthersKept(s, t, p);
    PiecesKept(s, t, p);
    assert Holders(t) == {};
  }

  lemma BystanderLeaves(s: State, t: State, p: Pid, x: Proc)
    requires Inv(s) && p in s.procs && p !in Holders(s) && !x.phase.Writing?
    requires t == s.(procs := s.procs[p := x]) && ProcOk(s.pipe, s.pieces, p, x)
    requires (s.procs[p].phase.Gone? ==> x == s.procs[p]) && x.messages == s.procs[p].messages
    ensures Inv(t)
  {
    hide ProcOk, PieceOk;
    OthersKept(s, t, p);
    PiecesKept(s, t, p);
    assert Holders(t) == Holders(s);
  }

  lemma BystanderDies(s: State, p: Pid)
    requires Inv(s) && p in s.procs && p !in Holders(s)
    ensures Inv(Die(s, p))
  {
    hide Flatten, WholeBy, PieceOk;
    var x := s.procs[p];
    assert ProcOk(s.pipe, s.pieces, p, x);
    var y := x.(phase := Gone, undo := 0);
    assert Die(s, p) == s.(procs := s.procs[p := y]);
    hide Inv, Die;
    BystanderLeaves(s, s.(procs := s.procs[p := y]), p, y);
  }

  lemma DieInv(s: State, p: Pid)
    requires Inv(s) && p in s.procs
    ensures Inv(Die(s, p))
  {
    hide Inv, Die;
    if p !in Holders(s) {
      BystanderDies(s, p);
    } else if s.procs[p].phase.k > 0 {
      WriterDies(s, p);
    } else {
      WriterVanishes(s, p);
    }
  }

  // ----- runs

  /** Who takes part and what each process has to say never change. */
  ghost predicate SameParties(s: State, t: State) {
    t.procs.Keys == s.procs.Keys && forall p :: p in s.procs ==> t.procs[p].messages == s.procs[p].messages
  }

  lemma ApplyParties(s: State, e: Event)
    ensures SameParties(s, Apply(s, e))
  {
  }

  lemma {:induction false} ExecuteInv(s: State, es: seq<Event>)
    requires Inv(s)
    ensures Inv(Execute(s, es)) && SameParties(s, Execute(s, es))
    decreases |es|
  {
    hide Inv, Step, Die;
    if es != [] {
      ApplyInv(s, es[0]);
      ApplyParties(s, es[0]);
      ExecuteInv(Apply(s, es[0]), es[1..]);
    }
  }

  lemma ApplyInv(s: State, e: Event)
    requires Inv(s)
    ensures Inv(Apply(s, e))
  {
    hide Inv, Step, Die;
    if e.p in s.procs {
      StepInv(s, e.p);
      DieInv(s, e.p);
    }
  }

  /** Log integrity, in every state the processes can reach: the pipe is a
      concatenation of pieces, one for each time the semaphore was held, followed
      by what the present holder has written. Every piece is a whole message of one
      of the processes, except that a process that died in the middle of a message
      has left the start of it; and each process's whole messages stand in the order
      in which it had them at the beginning. */
  lemma LogIsWholeMessages(s0: State, es: seq<Event>)
    requires Initial(s0)
    ensures var s := Execute(s0, es);
      && SameParties(s0, s)
      && (Holders(s) == {} ==> s.pipe == Flatten(s.pieces))
      && (forall p :: p in Holders(s) ==>
            && s.procs[p].next < |s0.procs[p].messages|
            && s.procs[p].phase.k <= |s0.procs[p].messages[s.procs[p].next]|
            && s.pipe == Flatten(s.pieces) + s0.procs[p].messages[s.procs[p].next][..s.procs[p].phase.k])
      && (forall p :: p in s0.procs ==>
            && s.procs[p].next <= |s0.procs[p].messages|
            && WholeBy(s.pieces, p) == s0.procs[p].messages[..s.procs[p].next])
      && (forall i :: 0 <= i < |s.pieces| ==> PieceOk(s, s.pieces[i]))
  {
    InitialInv(s0);
    ExecuteInv(s0, es);
    var s := Execute(s0, es);
    forall p | p in s.procs ensures ProcOk(s.pipe, s.pieces, p, s.procs[p]) {
    }
  }

  /** The event kills a process that has written some but not all of a message. */
  ghost predicate CutsMessage(s: State, e: Event) {
    e.Kill? && e.p in s.procs
    && var x := s.procs[e.p];
      x.phase.Writing? && x.next < |x.messages| && 0 < x.phase.k < |x.messages[x.next]|
  }

  ghost predicate Undisturbed(s: State, es: seq<Event>)
    decreases |es|
  {
    es == [] || (!CutsMessage(s, es[0]) && Undisturbed(Apply(s, es[0]), es[1..]))
  }

  ghost predicate AllWhole(pieces: seq<Piece>) {
    forall i :: 0 <= i < |pieces| ==> pieces[i].whole
  }

  lemma AllWholeAppend(pieces: seq<Piece>, piece: Piece)
    ensures AllWhole(pieces + [piece]) <==> AllWhole(pieces) && piece.whole
  {
    var all := pieces + [piece];
    assert all[|pieces|] == piece;
    assert forall i :: 0 <= i < |pieces| ==> all[i] == pieces[i];
  }

  lemma ApplyWhole(s: State, e: Event)
    requires Inv(s)
    ensures AllWhole(Apply(s, e).pieces) <==> AllWhole(s.pieces) && !CutsMessage(s, e)
  {
    var t := Apply(s, e);
    if e.p in s.procs {
      assert ProcOk(s.pipe, s.pieces, e.p, s.procs[e.p]);
    }
    hide Inv, ProcOk, AllWhole;
    if t.pieces != s.pieces {
      var piece := t.pieces[|s.pieces|];
      assert t.pieces == s.pieces + [piece] && (piece.whole <==> !CutsMessage(s, e));
      AllWholeAppend(s.pieces, piece);
    }
  }

  lemma {:induction false} WholeIff(s: State, es: seq<Event>)
    requires Inv(s)
    ensures AllWhole(Execute(s, es).pieces) <==> AllWhole(s.pieces) && Undisturbed(s, es)
    decreases |es|
  {
    hide Inv, Apply, AllWhole, CutsMessage;
    if es != [] {
      ApplyInv(s, es[0]);
      ApplyWhole(s, es[0]);
      WholeIff(Apply(s, es[0]), es[1..]);
    }
  }

  /** The log consists of whole messages only if and only if no process was ever
      killed in the middle of one. */
  lemma LogIsCleanIff(s0: State, es: seq<Event>)
    requires Initial(s0)
    ensures AllWhole(Execute(s0, es).pieces) <==> Undisturbed(s0, es)
  {
    InitialInv(s0);
    WholeIff(s0, es);
  }

  // ----- a message does reach the log

  function Alone(p: Pid, n: nat): seq<Event> {
    seq(n, _ => Run(p))
  }

  lemma AloneStep(s: State, p: Pid, n: nat)
    requires p in s.procs
    ensures Execute(s, Alone(p, 0)) == s
    ensures Execute(s, Alone(p, n + 1)) == Execute(Step(s, p), Alone(p, n))
  {
    hide Step;
    assert Alone(p, n + 1)[1..] == Alone(p, n);
  }

  lemma HolderHasMessage(s: State, p: Pid)
    requires Inv(s) && p in Holders(s)
    ensures var x := s.procs[p];
      s.sem == 0 && x.undo == 1 && x.next < |x.messages| && x.phase.k <= |x.messages[x.next]|
  {
    OneHolder(s, p, p);
    assert ProcOk(s.pipe, s.pieces, p, s.procs[p]);
  }

  /** How many steps of its own a process needs to finish its message. */
  function StepsLeft(x: Proc): nat {
    if x.phase.Writing? && x.next < |x.messages| && x.phase.k <= |x.messages[x.next]|
    then |x.messages[x.next]| - x.phase.k + 1
    else 0
  }

  lemma {:induction false} WriterFinishes(s: State, p: Pid, n: nat)
    requires Inv(s) && p in Holders(s) && n == StepsLeft(s.procs[p])
    ensures var t, x := Execute(s, Alone(p, n)), s.procs[p];
      && x.next < |x.messages| && x.phase.k <= |x.messages[x.next]|
      && t.sem == 1 && t.procs == s.procs[p := Proc(Idle, x.messages, x.next + 1, 0)]
      && t.pipe == s.pipe + x.messages[x.next][x.phase.k..]
      && t.pieces == s.pieces + [Piece(p, x.messages[x.next], true)]
    decreases n
  {
    hide Inv, Execute, Alone;
    HolderHasMessage(s, p);
    StepInv(s, p);
    AloneStep(s, p, n - 1);
    var x, t := s.procs[p], Step(s, p);
    var msg := x.messages[x.next];
    if x.phase.k < |msg| {
      WriterFinishes(t, p, n - 1);
      assert msg[x.phase.k..] == [msg[x.phase.k]] + msg[x.phase.k + 1..];
    } else {
      AloneStep(t, p, 0);
      assert s.pipe + msg[x.phase.k..] == s.pipe;
    }
  }

  /** A process that finds the semaphore free and is left alone has its next message in
      the pipe, whole, two steps after the last byte. */
  lemma MessageIsLogged(s: State, p: Pid)
    requires Inv(s) && s.sem == 1 && p in s.procs
    requires s.procs[p].phase.Idle? && s.procs[p].next < |s.procs[p].messages|
    ensures var x := s.procs[p];
      var msg := x.messages[x.next];
      var t := Execute(s, Alone(p, |msg| + 2));
      && t.pipe == s.pipe + msg && t.pieces == s.pieces + [Piece(p, msg, true)]
      && t.sem == 1 && t.procs == s.procs[p := x.(next := x.next + 1)]
  {
    assert ProcOk(s.pipe, s.pieces, p, s.procs[p]);
    hide Inv, Execute, Alone;
    var x, t := s.procs[p], Step(s, p);
    StepInv(s, p);
    AloneStep(s, p, |x.messages[x.next]| + 1);
    WriterFinishes(t, p, |x.messages[x.next]| + 1);
    assert x.messages[x.next][0..] == x.messages[x.next];
  }

  lemma PiecesGrow(s: State, e: Event)
    ensures s.pieces <= Apply(s, e).pieces
  {
  }

  lemma {:induction false} PiecesStay(s: State, es: seq<Event>)
    ensures s.pieces <= Execute(s, es).pieces
    decreases |es|
  {
    hide Apply;
    if es != [] {
      PiecesGrow(s, es[0]);
      PiecesStay(Apply(s, es[0]), es[1..]);
    }
  }

  /** While a process holds the semaphore, nobody else writes. */
  lemma OthersWait(s: State, p: Pid, e: Event)
    requires Inv(s) && p in Holders(s) && e != Run(p) && e != Kill(p)
    ensures var t := Apply(s, e); p in t.procs && t.procs[p] == s.procs[p] && t.pipe == s.pipe && t.pieces == s.pieces
  {
    HolderHasMessage(s, p);
    if e.p in s.procs && e.p in Holders(s) {
      OneHolder(s, p, e.p);
    }
  }

  /** In the middle of everything the others do: a process that has the semaphore and is
      not killed completes its message as the next piece, once it has had enough steps. */
  lemma {:induction false} InsideLogs(s: State, p: Pid, es: seq<Event>)
    requires Inv(s) && p in Holders(s)
    requires Kill(p) !in es && multiset(es)[Run(p)] >= StepsLeft(s.procs[p])
    ensures var x := s.procs[p];
      x.next < |x.messages| && s.pieces + [Piece(p, x.messages[x.next], true)] <= Execute(s, es).pieces
    decreases |es|
  {
    hide Inv, Die;
    HolderHasMessage(s, p);
    var x, e, t := s.procs[p], es[0], Apply(s, es[0]);
    assert es == [e] + es[1..];
    ApplyInv(s, e);
    if e != Run(p) {
      OthersWait(s, p, e);
      hide Apply;
      InsideLogs(t, p, es[1..]);
    } else if x.phase.k < |x.messages[x.next]| {
      InsideLogs(t, p, es[1..]);
    } else {
      PiecesStay(t, es[1..]);
    }
  }
}
