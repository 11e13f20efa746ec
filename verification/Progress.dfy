/** What does happen to the shared list: an append that is not refused and not killed
    takes place, and a scan ends. */
module Progress {
  import opened SharedList

  // ----- an append does happen

  function Alone(e: Event, n: nat): seq<Event> {
    seq(n, _ => e)
  }

  lemma AloneStep(cfg: Config, s: State, e: Event, n: nat)
    ensures Execute(cfg, s, Alone(e, 0)) == s
    ensures Execute(cfg, s, Alone(e, n + 1)) == Execute(cfg, Apply(cfg, s, e), Alone(e, n))
  {
    hide Apply;
    assert Alone(e, n + 1)[1..] == Alone(e, n);
  }

  /** How many steps of its own a process needs to leave the critical section. */
  function StepsLeft(cfg: Config, phase: Phase): nat {
    match phase
    case Locked => cfg.itemsize + 4
    case Copying(_, k) => if k <= cfg.itemsize then cfg.itemsize - k + 3 else 3
    case Raising(_) => 2
    case Counted => 1
    case Refused => 1
    case Idle => 0
    case Left => 0
  }

  /** A process that will append, or has it already: it has seen or will see room. */
  predicate Succeeding(cfg: Config, s: State, phase: Phase) {
    Holding(phase) && !phase.Refused? && (phase.Locked? ==> HasRoom(cfg, s.count))
  }

  /** One step on the way out. */
  lemma HolderAdvances(cfg: Config, s: State, p: Pid)
    requires Inv(cfg, s) && p in s.writers && Succeeding(cfg, s, s.writers[p].phase)
    ensures var t, w := WriterStep(cfg, s, p), s.writers[p];
      && Inv(cfg, t) && p in t.writers && t.writers == s.writers[p := t.writers[p]] && t.readers == s.readers
      && StepsLeft(cfg, t.writers[p].phase) == StepsLeft(cfg, w.phase) - 1
      && t.writers[p].script == w.script
      && (if w.phase.Counted? then t.sem == 1 && t.writers[p] == Writer(Idle, w.script, w.done, 0) && t.log == s.log
          else
            && Succeeding(cfg, t, t.writers[p].phase) && t.writers[p].phase.Counted? == w.phase.Raising?
            && w.done < |w.script|
            && (if w.phase.Raising? then t.writers[p].done == w.done + 1 && t.log == s.log + [Entry(p, w.script[w.done])]
                else t.writers[p].done == w.done && t.log == s.log))
  {
    hide Inv;
    StepInv(cfg, s, RunWriter(p));
    HolderHasItem(cfg, s, p);
  }

  lemma HolderHasItem(cfg: Config, s: State, p: Pid)
    requires Inv(cfg, s) && p in Holders(s)
    ensures var w := s.writers[p];
      && s.sem == 0 && w.undo == 1
      && (!w.phase.Counted? && !w.phase.Refused? ==> w.done < |w.script| && |w.script[w.done]| == cfg.itemsize)
      && (w.phase.Copying? ==>
            w.phase.at == s.count < |s.slots| && w.phase.k <= cfg.itemsize == |s.slots[s.count]|)
      && (w.phase.Raising? ==> w.phase.loaded == s.count)
  {
    OneHolder(cfg, s, p, p);
    assert WriterOk(cfg, s.slots, s.count, s.log, p, s.writers[p]);
    hide By, Hits, ReaderOk;
  }

  /** Left alone, it appends its item, gives the lock back and is outside again. */
  lemma {:induction false} HolderLeaves(cfg: Config, s: State, p: Pid, n: nat)
    requires Inv(cfg, s) && p in s.writers && Succeeding(cfg, s, s.writers[p].phase)
    requires n == StepsLeft(cfg, s.writers[p].phase)
    ensures var t, w := Execute(cfg, s, Alone(RunWriter(p), n)), s.writers[p];
      var done := if w.phase.Counted? then w.done else w.done + 1;
      && Inv(cfg, t) && t.sem == 1 && t.readers == s.readers
      && t.writers == s.writers[p := Writer(Idle, w.script, done, 0)]
      && (!w.phase.Counted? ==> w.done < |w.script|)
      && t.log == if w.phase.Counted? then s.log else s.log + [Entry(p, w.script[w.done])]
    decreases n
  {
    hide WriterStep, Inv, Execute, Alone;
    HolderAdvances(cfg, s, p);
    var t := WriterStep(cfg, s, p);
    AloneStep(cfg, s, RunWriter(p), n - 1);
    assert Apply(cfg, s, RunWriter(p)) == t;
    if s.writers[p].phase.Counted? {
      AloneStep(cfg, t, RunWriter(p), 0);
    } else {
      HolderLeaves(cfg, t, p, n - 1);
    }
  }

  /** An append takes place: a process that finds the semaphore free and is left alone
      has its item in the list after `itemsize` + 5 steps, if there is room. */
  lemma AppendHappens(cfg: Config, s: State, p: Pid)
    requires Inv(cfg, s) && s.sem == 1 && p in s.writers && HasRoom(cfg, s.count)
    requires s.writers[p].phase.Idle? && s.writers[p].done < |s.writers[p].script|
    ensures var t, w := Execute(cfg, s, Alone(RunWriter(p), cfg.itemsize + 5)), s.writers[p];
      && t.log == s.log + [Entry(p, w.script[w.done])] && Published(t) == Published(s) + [w.script[w.done]]
      && t.sem == 1 && t.writers == s.writers[p := w.(done := w.done + 1)]
  {
    hide Execute, Alone, Published;
    var w := s.writers[p];
    var t := WriterStep(cfg, s, p);
    StepInv(cfg, s, RunWriter(p));
    assert WriterOk(cfg, s.slots, s.count, s.log, p, w);
    hide Inv, WriterOk;
    AloneStep(cfg, s, RunWriter(p), cfg.itemsize + 4);
    HolderLeaves(cfg, t, p, cfg.itemsize + 4);
    PublishedByLog(cfg, s, Execute(cfg, s, Alone(RunWriter(p), cfg.itemsize + 5)), [Entry(p, w.script[w.done])]);
  }

  /** Without room it returns after three steps, and the list is as before. */
  lemma AppendIsRefused(cfg: Config, s: State, p: Pid)
    requires Inv(cfg, s) && s.sem == 1 && p in s.writers && !HasRoom(cfg, s.count)
    requires s.writers[p].phase.Idle? && s.writers[p].done < |s.writers[p].script|
    ensures var t, w := Execute(cfg, s, Alone(RunWriter(p), 3)), s.writers[p];
      && t.log == s.log && t.slots == s.slots && t.count == s.count
      && t.sem == 1 && t.writers == s.writers[p := w.(phase := Left)]
  {
    hide Inv, Execute, Alone;
    var e := RunWriter(p);
    assert s.writers[p].undo == 0 by {
      OutsideIsEven(cfg, s, p);
    }
    AloneStep(cfg, s, e, 2);
    var t := Apply(cfg, s, e);
    AloneStep(cfg, t, e, 1);
    var u := Apply(cfg, t, e);
    AloneStep(cfg, u, e, 0);
    var v := Apply(cfg, u, e);
    AloneStep(cfg, v, e, 0);
  }

  lemma OutsideIsEven(cfg: Config, s: State, p: Pid)
    requires Inv(cfg, s) && p in s.writers && !Holding(s.writers[p].phase)
    ensures s.writers[p].undo == 0
  {
    assert WriterOk(cfg, s.slots, s.count, s.log, p, s.writers[p]);
  }

  /** The lock always comes free: whoever has it leaves within `itemsize` + 4 steps of
      its own, and if it is killed instead, the lock is free at once. */
  lemma LockComesFree(cfg: Config, s: State, p: Pid) returns (n: nat)
    requires Inv(cfg, s) && p in Holders(s)
    ensures n <= cfg.itemsize + 4 && Execute(cfg, s, Alone(RunWriter(p), n)).sem == 1
    ensures Apply(cfg, s, KillWriter(p)).sem == 1
  {
    hide Inv, Execute, Alone;
    Death(cfg, s, p);
    OneHolder(cfg, s, p, p);
    var e, t := RunWriter(p), Apply(cfg, s, RunWriter(p));
    if Succeeding(cfg, s, s.writers[p].phase) {
      n := StepsLeft(cfg, s.writers[p].phase);
      HolderLeaves(cfg, s, p, n);
    } else {
      n := if s.writers[p].phase.Refused? then 1 else 2;
      AloneStep(cfg, s, e, n - 1);
      AloneStep(cfg, t, e, 0);
      AloneStep(cfg, Apply(cfg, t, e), e, 0);
    }
  }

  function Items(log: seq<Entry>): seq<string> {
    seq(|log|, i requires 0 <= i < |log| => log[i].item)
  }

  lemma PublishedByLog(cfg: Config, s: State, t: State, more: seq<Entry>)
    requires Inv(cfg, s) && Inv(cfg, t) && t.log == s.log + more
    ensures Published(t) == Published(s) + Items(more)
  {
    assert Shape(cfg, s) && Shape(cfg, t);
  }

  /** While a process is inside, nobody else touches it or the list. */
  lemma OthersWait(cfg: Config, s: State, p: Pid, e: Event)
    requires Inv(cfg, s) && p in Holders(s) && e != RunWriter(p) && e != KillWriter(p)
    ensures var t := Apply(cfg, s, e);
      Inv(cfg, t) && p in t.writers && t.writers[p] == s.writers[p] && t.log == s.log && t.count == s.count
  {
    hide Inv;
    StepInv(cfg, s, e);
    OneHolder(cfg, s, p, p);
    if e.RunWriter? && e.p in s.writers && e.p in Holders(s) {
      OneHolder(cfg, s, p, e.p);
    }
    hide Hit, Published;
  }

  /** In the middle of everything the others do: a process that has the lock, and room,
      and is not killed appends its item next, once it has had enough steps. */
  lemma {:induction false} InsideAppends(cfg: Config, s: State, p: Pid, es: seq<Event>)
    requires Inv(cfg, s) && p in s.writers
    requires Succeeding(cfg, s, s.writers[p].phase) && !s.writers[p].phase.Counted?
    requires KillWriter(p) !in es && multiset(es)[RunWriter(p)] + 1 >= StepsLeft(cfg, s.writers[p].phase)
    ensures var w := s.writers[p];
      w.done < |w.script| && s.log + [Entry(p, w.script[w.done])] <= Execute(cfg, s, es).log
    decreases |es|
  {
    hide WriterStep, Inv, Apply;
    HolderAdvances(cfg, s, p);
    assert StepsLeft(cfg, s.writers[p].phase) >= 2;
    assert es == [es[0]] + es[1..];
    var e, t := es[0], Apply(cfg, s, es[0]);
    if e == RunWriter(p) {
      WriterMovesOn(cfg, s, p);
      if s.writers[p].phase.Raising? {
        ExecuteInv(cfg, t, es[1..]);
      } else {
        InsideAppends(cfg, t, p, es[1..]);
      }
    } else {
      OthersWait(cfg, s, p, e);
      InsideAppends(cfg, t, p, es[1..]);
    }
  }

  lemma WriterMovesOn(cfg: Config, s: State, p: Pid)
    requires p in s.writers
    ensures Apply(cfg, s, RunWriter(p)) == WriterStep(cfg, s, p)
  {
  }

  // ----- a scan does end

  /** A scan's steps for so many entries. */
  function StepsFor(cfg: Config, entries: int): int {
    entries * (cfg.itemsize + 3)
  }

  /** How many steps of its own a reader still needs when the list never grows beyond
      `m` entries. */
  function ScanLeft(cfg: Config, scan: Scan, m: nat): int {
    match scan
    case Looking(i) => StepsFor(cfg, m - i) + 2
    case Bounded(i) => StepsFor(cfg, m - i) + 1
    case Reading(i, got) => StepsFor(cfg, m - i) - |got|
    case Finished(_) => 0
    case Dead => 0
  }

  /** Where a reader stands before and after a step. */
  ghost predicate Onward(cfg: Config, count: nat, scan: Scan, next: Scan) {
    match scan
    case Looking(i) => i <= count && (next.Finished? || next == Bounded(i))
    case Bounded(i) => i <= count && (next.Finished? || (i < count && next == Reading(i, "")))
    case Reading(i, got) =>
      i < count && |got| <= cfg.itemsize
      && if |got| == cfg.itemsize then next == Looking(i + 1)
         else next.Reading? && next.i == i && |next.got| == |got| + 1
    case Finished(_) => next == scan
    case Dead => next == scan
  }

  lemma ReaderGoesOn(cfg: Config, s: State, p: Pid)
    requires Inv(cfg, s) && p in s.readers
    ensures Onward(cfg, s.count, s.readers[p].scan, ReaderStep(cfg, s, p).readers[p].scan)
  {
    hide Hits, Hit, Published, WriterOk;
    assert ReaderOk(s.slots, s.count, s.readers[p]);
  }

  lemma ReaderAdvances(cfg: Config, scan: Scan, next: Scan, count: nat, m: nat)
    requires Onward(cfg, count, scan, next) && count <= m && !scan.Finished? && !scan.Dead?
    ensures ScanLeft(cfg, scan, m) > 0 && ScanLeft(cfg, next, m) < ScanLeft(cfg, scan, m) && !next.Dead?
  {
    hide StepsFor;
    match scan
    case Looking(i) => OneEntryLess(cfg, m - i);
    case Bounded(i) => OneEntryLess(cfg, m - i);
    case Reading(i, got) =>
      OneEntryLess(cfg, m - i);
      assert m - (i + 1) == (m - i) - 1;
  }

  lemma OneEntryLess(cfg: Config, entries: nat)
    ensures StepsFor(cfg, entries) >= 0
    ensures entries > 0 ==> StepsFor(cfg, entries) == StepsFor(cfg, entries - 1) + cfg.itemsize + 3
    ensures entries > 0 ==> StepsFor(cfg, entries - 1) >= 0
  {
  }

  lemma OthersLeaveReader(cfg: Config, s: State, p: Pid, e: Event)
    requires p in s.readers && e != RunReader(p) && e != KillReader(p)
    ensures p in Apply(cfg, s, e).readers && Apply(cfg, s, e).readers[p] == s.readers[p]
  {
    hide Hit;
  }

  /** In the middle of everything the others do, a scan that is not killed ends, once
      it has had enough steps for the entries there are in the end. */
  lemma {:induction false} ScanTerminates(cfg: Config, s: State, p: Pid, es: seq<Event>, m: nat)
    requires Inv(cfg, s) && p in s.readers && !s.readers[p].scan.Dead? && KillReader(p) !in es
    requires Execute(cfg, s, es).count <= m && multiset(es)[RunReader(p)] >= ScanLeft(cfg, s.readers[p].scan, m)
    ensures var t := Execute(cfg, s, es); p in t.readers && t.readers[p].scan.Finished?
    decreases |es|
  {
    hide Inv, Apply, ReaderStep, Onward;
    ExecuteInv(cfg, s, es);
    CountIsLog(cfg, s);
    CountIsLog(cfg, Execute(cfg, s, es));
    var scan := s.readers[p].scan;
    if !scan.Finished? {
      ReaderMovesOn(cfg, s, p);
      ReaderGoesOn(cfg, s, p);
      ReaderAdvances(cfg, scan, ReaderStep(cfg, s, p).readers[p].scan, s.count, m);
    }
    if es != [] {
      var e, t := es[0], Apply(cfg, s, es[0]);
      assert es == [e] + es[1..];
      StepInv(cfg, s, e);
      if e == RunReader(p) {
        ReaderMovesOn(cfg, s, p);
      } else {
        OthersLeaveReader(cfg, s, p, e);
      }
      ScanTerminates(cfg, t, p, es[1..], m);
    }
  }

  lemma CountIsLog(cfg: Config, s: State)
    requires Inv(cfg, s)
    ensures s.count == |s.log|
  {
  }

  lemma ReaderMovesOn(cfg: Config, s: State, p: Pid)
    requires p in s.readers
    ensures Apply(cfg, s, RunReader(p)) == ReaderStep(cfg, s, p) && p in ReaderStep(cfg, s, p).readers
    ensures s.readers[p].scan.Finished? ==> ReaderStep(cfg, s, p) == s
  {
    hide Hit;
  }

  lemma {:induction false} FinishedStays(cfg: Config, s: State, p: Pid, es: seq<Event>)
    requires p in s.readers && s.readers[p].scan.Finished? && KillReader(p) !in es
    ensures var t := Execute(cfg, s, es); p in t.readers && t.readers[p] == s.readers[p]
    decreases |es|
  {
    hide Apply, ReaderStep;
    if es != [] {
      var t := Apply(cfg, s, es[0]);
      if es[0] == RunReader(p) {
        ReaderMovesOn(cfg, s, p);
      } else {
        OthersLeaveReader(cfg, s, p, es[0]);
      }
      FinishedStays(cfg, t, p, es[1..]);
    }
  }

  /** A scan that is under way in `s` and over in the end has sent the filter of a
      list that stood at some moment in between. */
  lemma {:induction false} SnapshotInBetween(cfg: Config, s: State, p: Pid, es: seq<Event>)
    requires Inv(cfg, s) && p in s.readers && KillReader(p) !in es
    requires var t := Execute(cfg, s, es);
      !s.readers[p].scan.Finished? && p in t.readers && t.readers[p].scan.Finished?
    ensures var t := Execute(cfg, s, es);
      var r := t.readers[p];
      && Published(s) <= r.scan.snapshot <= Published(t)
      && r.sent == Hits(r.scan.snapshot, s.readers[p].needle)
    decreases |es|
  {
    hide Inv, Apply, ReaderStep, Published;
    assert es != [];
    var e, u, t := es[0], Apply(cfg, s, es[0]), Execute(cfg, s, es);
    StepInv(cfg, s, e);
    StepParties(cfg, s, e);
    ExecuteInv(cfg, u, es[1..]);
    ListGrows(cfg, s, u);
    ListGrows(cfg, u, t);
    if e == RunReader(p) {
      ReaderMovesOn(cfg, s, p);
      ScanEnds(cfg, s, p);
    } else {
      OthersLeaveReader(cfg, s, p, e);
    }
    if u.readers[p].scan.Finished? {
      FinishedStays(cfg, u, p, es[1..]);
    } else {
      SnapshotInBetween(cfg, u, p, es[1..]);
    }
  }

  lemma ListGrows(cfg: Config, s: State, t: State)
    requires Inv(cfg, s) && Inv(cfg, t) && s.log <= t.log
    ensures Published(s) <= Published(t)
  {
    PublishedGrows(cfg, s, t);
  }

  /** Whatever the other processes do meanwhile, a scan that is not killed ends after
      enough steps for the entries there are in the end, and has then sent exactly the
      matching entries of the list as it stood at one moment since. */
  lemma ScanCompletes(cfg: Config, s: State, p: Pid, es: seq<Event>)
    requires Inv(cfg, s) && p in s.readers && KillReader(p) !in es
    requires var scan := s.readers[p].scan; !scan.Dead? && !scan.Finished?
    requires multiset(es)[RunReader(p)] >= ScanLeft(cfg, s.readers[p].scan, Execute(cfg, s, es).count)
    ensures var t := Execute(cfg, s, es);
      && p in t.readers && t.readers[p].scan.Finished?
      && var r := t.readers[p];
        && Published(s) <= r.scan.snapshot <= Published(t)
        && r.sent == Hits(r.scan.snapshot, s.readers[p].needle)
  {
    hide Inv, Execute, Published, Hits;
    ScanTerminates(cfg, s, p, es, Execute(cfg, s, es).count);
    SnapshotInBetween(cfg, s, p, es);
  }

  lemma {:induction false} ReadersLeaveList(cfg: Config, s: State, e: Event, n: nat)
    requires Inv(cfg, s) && e.RunReader?
    ensures var t := Execute(cfg, s, Alone(e, n)); t.count == s.count && t.slots == s.slots
    decreases n
  {
    hide Alone, Inv, Hit;
    if n == 0 {
      AloneStep(cfg, s, e, 0);
    } else {
      AloneStep(cfg, s, e, n - 1);
      StepInv(cfg, s, e);
      if e.p in s.readers {
        ReaderStepKeepsList(cfg, s, e.p);
      }
      ReadersLeaveList(cfg, Apply(cfg, s, e), e, n - 1);
    }
  }

  lemma ReaderStepKeepsList(cfg: Config, s: State, p: Pid)
    requires p in s.readers
    ensures ReaderStep(cfg, s, p).count == s.count && ReaderStep(cfg, s, p).slots == s.slots
  {
    hide Hit, Published;
  }

  lemma SameList(s: State, t: State)
    requires t.count == s.count && t.slots == s.slots
    ensures Published(t) == Published(s)
  {
  }

  lemma ScanAlone(cfg: Config, s: State, p: Pid, n: nat)
    requires Inv(cfg, s) && p in s.readers && n >= ScanLeft(cfg, s.readers[p].scan, s.count)
    requires var scan := s.readers[p].scan; !scan.Dead? && !scan.Finished?
    ensures var t := Execute(cfg, s, Alone(RunReader(p), n));
      && Published(t) == Published(s) && p in t.readers && t.readers[p].scan == Finished(Published(s))
      && t.readers[p].sent == Hits(Published(s), s.readers[p].needle)
  {
    hide Inv, Execute, Hits, Alone, ScanLeft, Published;
    var es := Alone(RunReader(p), n);
    ReadersLeaveList(cfg, s, RunReader(p), n);
    AllAlone(RunReader(p), n);
    SameList(s, Execute(cfg, s, es));
    ScanCompletes(cfg, s, p, es);
  }

  /** Left alone at entry `i`, it ends after `itemsize` + 3 steps for each entry from
      there on and two for the end, and has sent the matching entries of the list. */
  lemma ScanHappens(cfg: Config, s: State, p: Pid, i: nat)
    requires Inv(cfg, s) && p in s.readers && s.readers[p].scan == Looking(i)
    ensures i <= s.count
    ensures StepsFor(cfg, s.count - i) >= 0
    ensures var n := StepsFor(cfg, s.count - i) + 2;
      var t := Execute(cfg, s, Alone(RunReader(p), n));
      && Published(t) == Published(s) && p in t.readers && t.readers[p].scan == Finished(Published(s))
      && t.readers[p].sent == Hits(Published(s), s.readers[p].needle)
  {
    ReaderIsInside(cfg, s, p);
    hide Inv, Execute, Hits, Alone, StepsFor, Published;
    OneEntryLess(cfg, s.count - i);
    ScanAlone(cfg, s, p, StepsFor(cfg, s.count - i) + 2);
  }

  lemma ReaderIsInside(cfg: Config, s: State, p: Pid)
    requires Inv(cfg, s) && p in s.readers && s.readers[p].scan.Looking?
    ensures s.readers[p].scan.i <= s.count
  {
    assert ReaderOk(s.slots, s.count, s.readers[p]);
  }

  lemma {:induction false} AllAlone(e: Event, n: nat)
    ensures multiset(Alone(e, n))[e] == n && forall x :: x in Alone(e, n) ==> x == e
  {
    if n > 0 {
      AllAlone(e, n - 1);
      assert Alone(e, n) == [e] + Alone(e, n - 1);
    }
  }
}
