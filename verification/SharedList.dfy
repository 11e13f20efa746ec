/** The file list in shared memory: any number of server processes append to it
    under a semaphore and scan it without one, and each may be killed between
    any two steps. */
module SharedList {
  import opened Bytes
  import opened Arrays
  import opened Session

  type Pid = nat

  /** The shared segment: item size and array size in bytes. */
  datatype Config = Config(itemsize: nat, memsize: nat)

  // ----- the processes

  /** Where a process stands that runs recvFileList and addArrayItem in it. */
  datatype Phase =
    | Idle                          // outside the critical section
    | Locked                        // semWait has returned
    | Copying(at: nat, k: nat)      // k bytes of the item are in slot `at`
    | Raising(loaded: nat)           // itemcount has been loaded, not yet stored
    | Counted                       // itemcount has been stored
    | Refused                       // the array was full
    | Left                          // returned or killed

  /** A client's list, how many of its items have been counted in, and what the
      kernel would add to the semaphore if the process died now. */
  datatype Writer = Writer(phase: Phase, script: seq<string>, done: nat, undo: int)

  /** Where a process stands that runs sendResult. */
  datatype Scan =
    | Looking(i: nat)                   // about to test for an empty list
    | Bounded(i: nat)                   // about to test the cursor against the count
    | Reading(i: nat, got: string)      // has read this much of item i
    | Finished(snapshot: seq<string>)   // the list at the test that ended the scan
    | Dead

  datatype Reader = Reader(scan: Scan, needle: string, sent: seq<string>)

  datatype Entry = Entry(who: Pid, item: string)

  /** `log` records who counted which item in; `fault` a step outside the segment. */
  datatype State = State(
    sem: int, slots: seq<string>, count: nat, fault: bool, log: seq<Entry>,
    writers: map<Pid, Writer>, readers: map<Pid, Reader>)

  function Published(s: State): seq<string> {
    s.slots[..Min(s.count, |s.slots|)]
  }

  predicate OccursAt(name: string, k: nat, needle: string) {
    k + |needle| <= |name| && SameIgnoringCase(name[k..k + |needle|], needle)
  }

  /** strcasestr(filename, needle), the filename being the first field of the item. */
  ghost predicate Hit(item: string, needle: string) {
    exists k: nat :: OccursAt(CString(item), k, needle)
  }

  ghost function Hits(items: seq<string>, needle: string): seq<string>
    decreases |items|
  {
    if items == [] then []
    else
      var last := items[|items| - 1];
      Hits(items[..|items| - 1], needle) + if Hit(last, needle) then [last] else []
  }

  /** An item matches exactly if the needle stands somewhere in the name in front of its
      first NUL, in whatever case; what lies behind the NUL does not matter. */
  lemma HitIff(name: string, tail: string, needle: string)
    requires NUL !in name
    ensures Hit(name + "\0" + tail, needle) <==>
      exists front, mid, back :: name == front + mid + back && Uppercase(mid) == Uppercase(needle)
  {
    hide Uppercase, SameIgnoringCase;
    var item := name + "\0" + tail;
    CStringUpTo(name, tail);
    if k: nat :| OccursAt(name, k, needle) {
      var mid := name[k..k + |needle|];
      assert name == name[..k] + mid + name[k + |needle|..];
      SameIffUppercase(mid, needle);
    }
    if front, mid, back :| name == front + mid + back && Uppercase(mid) == Uppercase(needle) {
      SameIffUppercase(mid, needle);
      SameLength(mid, needle);
      assert name[|front|..|front| + |needle|] == mid;
      assert OccursAt(name, |front|, needle);
    }
  }

  lemma SameLength(a: string, b: string)
    requires Uppercase(a) == Uppercase(b)
    ensures |a| == |b|
  {
    assert |Uppercase(a)| == |Uppercase(b)|;
  }

  /** Every entry that matches, as often as it stands in the list, and no other. */
  lemma {:induction false} HitsAreExact(items: seq<string>, needle: string, x: string)
    ensures multiset(Hits(items, needle))[x] == if Hit(x, needle) then multiset(items)[x] else 0
    decreases |items|
  {
    hide Hit;
    if items != [] {
      var front, last := items[..|items| - 1], items[|items| - 1];
      HitsAreExact(front, needle, x);
      assert items == front + [last];
      assert multiset(items) == multiset(front) + multiset{last};
    }
  }

  // ----- the atomic steps

  predicate Holding(phase: Phase) {
    !phase.Idle? && !phase.Left?
  }

  function WithWriter(s: State, p: Pid, w: Writer): State {
    s.(writers := s.writers[p := w])
  }

  function WriterStep(cfg: Config, s: State, p: Pid): State
    requires p in s.writers
  {
    var w := s.writers[p];
    match w.phase
    case Idle =>
      if w.done >= |w.script| || s.sem <= 0 then s
      else WithWriter(s.(sem := s.sem - 1), p, w.(phase := Locked, undo := w.undo + 1))
    case Locked =>
      WithWriter(s, p, w.(phase :=
        if NeedsGrowth(Sizes(cfg.memsize, cfg.memsize, s.count), cfg.itemsize) then Refused
        else Copying(s.count, 0)))
    case Copying(at, k) =>
      if w.done >= |w.script| then s
      else
        var item := w.script[w.done];
        if k >= |item| then WithWriter(s, p, w.(phase := Raising(s.count)))
        else if at < |s.slots| && k < |s.slots[at]| then
          WithWriter(s.(slots := s.slots[at := s.slots[at][k := item[k]]]), p, w.(phase := Copying(at, k + 1)))
        else s.(fault := true)
    case Raising(count) =>
      if w.done >= |w.script| then s
      else WithWriter(s.(count := count + 1, log := s.log + [Entry(p, w.script[w.done])]),
                      p, w.(phase := Counted, done := w.done + 1))
    case Counted => WithWriter(s.(sem := s.sem + 1), p, w.(phase := Idle, undo := w.undo - 1))
    case Refused => WithWriter(s.(sem := s.sem + 1), p, w.(phase := Left, undo := w.undo - 1))
    case Left => s
  }

  /** Death at any point: the kernel undoes the semaphore operations. */
  function WriterDies(s: State, p: Pid): State
    requires p in s.writers
  {
    var w := s.writers[p];
    WithWriter(s.(sem := s.sem + w.undo), p, w.(phase := Left, undo := 0))
  }

  function WithReader(s: State, p: Pid, r: Reader): State {
    s.(readers := s.readers[p := r])
  }

  function ReaderAt(s: State, p: Pid, r: Reader, scan: Scan): State {
    WithReader(s, p, r.(scan := scan))
  }

  ghost function ReaderStep(cfg: Config, s: State, p: Pid): State
    requires p in s.readers
  {
    var r := s.readers[p];
    match r.scan
    case Looking(i) =>
      ReaderAt(s, p, r, if s.count == 0 then Finished(Published(s)) else Bounded(i))
    case Bounded(i) =>
      ReaderAt(s, p, r, if i > s.count - 1 then Finished(Published(s)) else Reading(i, ""))
    case Reading(i, got) =>
      if |got| >= cfg.itemsize then
        WithReader(s, p, r.(scan := Looking(i + 1), sent := r.sent + if Hit(got, r.needle) then [got] else []))
      else if i < |s.slots| && |got| < |s.slots[i]| then
        ReaderAt(s, p, r, Reading(i, got + [s.slots[i][|got|]]))
      else s.(fault := true)
    case Finished(_) => s
    case Dead => s
  }

  datatype Event = RunWriter(p: Pid) | KillWriter(p: Pid) | RunReader(p: Pid) | KillReader(p: Pid)

  ghost function Apply(cfg: Config, s: State, e: Event): State {
    match e
    case RunWriter(p) => if p in s.writers then WriterStep(cfg, s, p) else s
    case KillWriter(p) => if p in s.writers then WriterDies(s, p) else s
    case RunReader(p) => if p in s.readers then ReaderStep(cfg, s, p) else s
    case KillReader(p) => if p in s.readers then ReaderAt(s, p, s.readers[p], Dead) else s
  }

  /** A run: the scheduler picks who moves and who dies, in any order. */
  ghost function Execute(cfg: Config, s: State, es: seq<Event>): State
    decreases |es|
  {
    if es == [] then s else Execute(cfg, Apply(cfg, s, es[0]), es[1..])
  }

  ghost predicate Initial(cfg: Config, s: State) {
    && cfg.itemsize > 0 && s.sem == 1 && s.count == 0 && s.log == [] && !s.fault
    && cfg.itemsize * |s.slots| <= cfg.memsize < cfg.itemsize * (|s.slots| + 1)
    && (forall i :: 0 <= i < |s.slots| ==> |s.slots[i]| == cfg.itemsize)
    && (forall p :: p in s.writers ==>
          var w := s.writers[p];
          w.phase == Idle && w.done == 0 && w.undo == 0 && forall i :: 0 <= i < |w.script| ==> |w.script[i]| == cfg.itemsize)
    && (forall p :: p in s.readers ==> s.readers[p].scan == Looking(0) && s.readers[p].sent == [])
  }

  // ----- the invariant

  /** Whether the segment takes one more item, by the strict test of addArrayItem. */
  predicate HasRoom(cfg: Config, count: nat) {
    cfg.itemsize * (count + 1) < cfg.memsize
  }

  ghost function Holders(s: State): set<Pid> {
    set p | p in s.writers && Holding(s.writers[p].phase)
  }

  /** The items of one process, in list order. */
  function By(log: seq<Entry>, p: Pid): seq<string>
    decreases |log|
  {
    if log == [] then []
    else
      var last := log[|log| - 1];
      By(log[..|log| - 1], p) + if last.who == p then [last.item] else []
  }

  ghost predicate Shape(cfg: Config, s: State) {
    && cfg.itemsize > 0 && !s.fault && s.count <= |s.slots| && |s.log| == s.count
    && cfg.itemsize * |s.slots| <= cfg.memsize < cfg.itemsize * (|s.slots| + 1)
    && (forall i :: 0 <= i < |s.slots| ==> |s.slots[i]| == cfg.itemsize)
    && (forall i :: 0 <= i < s.count ==> s.slots[i] == s.log[i].item)
  }

  /** What holds of one writer, whatever the others do. */
  ghost predicate WriterOk(cfg: Config, slots: seq<string>, count: nat, log: seq<Entry>, p: Pid, w: Writer) {
    && w.undo == (if Holding(w.phase) then 1 else 0)
    && w.done <= |w.script| && By(log, p) == w.script[..w.done]
    && (forall i :: 0 <= i < |w.script| ==> |w.script[i]| == cfg.itemsize)
    && (w.phase.Locked? || w.phase.Copying? || w.phase.Raising? ==> w.done < |w.script|)
    && (w.phase.Copying? ==>
          w.phase.at == count < |slots| && w.phase.k <= cfg.itemsize
          && |slots[count]| == cfg.itemsize && slots[count][..w.phase.k] == w.script[w.done][..w.phase.k])
    && (w.phase.Raising? ==>
          w.phase.loaded == count < |slots| && slots[count] == w.script[w.done])
    && (w.phase.Refused? ==> !HasRoom(cfg, count))
  }

  ghost predicate ReaderOk(slots: seq<string>, count: nat, r: Reader)
    requires count <= |slots|
  {
    match r.scan
    case Looking(i) => i <= count && r.sent == Hits(slots[..i], r.needle)
    case Bounded(i) => i <= count && r.sent == Hits(slots[..i], r.needle)
    case Reading(i, got) =>
      && i < count && r.sent == Hits(slots[..i], r.needle)
      && |got| <= |slots[i]| && got == slots[i][..|got|]
    case Finished(snapshot) => r.sent == Hits(snapshot, r.needle) && snapshot <= slots[..count]
    case Dead => true
  }

  ghost predicate Inv(cfg: Config, s: State) {
    && Shape(cfg, s)
    && 0 <= s.sem && s.sem + |Holders(s)| == 1
    && (forall p :: p in s.writers ==> WriterOk(cfg, s.slots, s.count, s.log, p, s.writers[p]))
    && (forall p :: p in s.readers ==> ReaderOk(s.slots, s.count, s.readers[p]))
    && (forall i :: 0 <= i < |s.log| ==> s.log[i].who in s.writers)
  }

  lemma InitialInv(cfg: Config, s: State)
    requires Initial(cfg, s)
    ensures Inv(cfg, s)
  {
  }

  /** At most one process is inside the critical section. */
  lemma OneHolder(cfg: Config, s: State, p: Pid, q: Pid)
    requires Inv(cfg, s) && p in Holders(s) && q in Holders(s)
    ensures p == q && s.sem == 0
  {
    assert |Holders(s) - {p}| == |Holders(s)| - 1;
    assert q !in Holders(s) - {p};
  }

  // ----- what a step of one writer leaves alone

  lemma HoldersAfter(s: State, t: State, p: Pid, w: Writer)
    requires p in s.writers && t.writers == s.writers[p := w]
    ensures Holders(t) == if Holding(w.phase) then Holders(s) + {p} else Holders(s) - {p}
  {
  }

  /** The other writers: either nothing they look at has changed, or they are
      outside the critical section and none of the new entries is theirs. */
  lemma OthersKept(cfg: Config, s: State, t: State, p: Pid, w: Writer)
    requires Inv(cfg, s) && p in s.writers && t.writers == s.writers[p := w]
    requires (t.slots == s.slots && t.count == s.count && t.log == s.log)
      || (p in Holders(s) && forall q :: q != p ==> By(t.log, q) == By(s.log, q))
    ensures forall q :: q in t.writers && q != p ==> WriterOk(cfg, t.slots, t.count, t.log, q, t.writers[q])
  {
    forall q | q in t.writers && q != p ensures WriterOk(cfg, t.slots, t.count, t.log, q, t.writers[q]) {
      assert WriterOk(cfg, s.slots, s.count, s.log, q, s.writers[q]);
      if p in Holders(s) && q in Holders(s) {
        OneHolder(cfg, s, p, q);
      }
    }
  }

  /** The readers: the published part of the list has at most grown. */
  lemma ReadersKept(cfg: Config, s: State, t: State)
    requires Inv(cfg, s) && t.readers == s.readers && s.count <= t.count <= |t.slots| == |s.slots|
    requires forall i :: 0 <= i < s.count ==> t.slots[i] == s.slots[i]
    ensures forall p :: p in t.readers ==> ReaderOk(t.slots, t.count, t.readers[p])
  {
    forall p | p in t.readers ensures ReaderOk(t.slots, t.count, t.readers[p]) {
      assert ReaderOk(s.slots, s.count, s.readers[p]);
      assert forall i :: 0 <= i <= s.count ==> t.slots[..i] == s.slots[..i];
    }
  }

  /** A writer step that touches neither the list nor its count. */
  lemma LocalStep(cfg: Config, s: State, t: State, p: Pid, w: Writer)
    requires Inv(cfg, s) && p in s.writers && t == WithWriter(s.(sem := t.sem), p, w)
    requires WriterOk(cfg, t.slots, t.count, t.log, p, w)
    requires t.sem - s.sem == (if p in Holders(s) then 1 else 0) - (if Holding(w.phase) then 1 else 0)
    requires 0 <= t.sem
    ensures Inv(cfg, t) && t.log == s.log
  {
    HoldersAfter(s, t, p, w);
    OthersKept(cfg, s, t, p, w);
    ReadersKept(cfg, s, t);
  }

  lemma TryLock(cfg: Config, s: State, p: Pid)
    requires Inv(cfg, s) && p in s.writers && s.writers[p].phase.Idle?
    ensures Inv(cfg, WriterStep(cfg, s, p)) && WriterStep(cfg, s, p).log == s.log
  {
    var w := s.writers[p];
    var t := WriterStep(cfg, s, p);
    assert WriterOk(cfg, s.slots, s.count, s.log, p, w);
    if t != s {
      LocalStep(cfg, s, t, p, t.writers[p]);
    }
  }

  lemma TestRoom(cfg: Config, s: State, p: Pid)
    requires Inv(cfg, s) && p in s.writers && s.writers[p].phase.Locked?
    ensures Inv(cfg, WriterStep(cfg, s, p)) && WriterStep(cfg, s, p).log == s.log
  {
    var t := WriterStep(cfg, s, p);
    assert WriterOk(cfg, s.slots, s.count, s.log, p, s.writers[p]);
    if !NeedsGrowth(Sizes(cfg.memsize, cfg.memsize, s.count), cfg.itemsize) {
      assert cfg.itemsize * (s.count + 1) < cfg.itemsize * (|s.slots| + 1);
      MulLess(cfg.itemsize, s.count + 1, |s.slots| + 1);
    }
    LocalStep(cfg, s, t, p, t.writers[p]);
  }

  /** A step of the process that holds the semaphore, in the list or its count. */
  lemma HolderStep(cfg: Config, s: State, t: State, p: Pid, w: Writer)
    requires Inv(cfg, s) && p in Holders(s)
    requires t.writers == s.writers[p := w] && Holding(w.phase) && t.sem == s.sem && t.readers == s.readers
    requires Shape(cfg, t) && s.count <= t.count <= |t.slots| == |s.slots|
    requires forall i :: 0 <= i < s.count ==> t.slots[i] == s.slots[i]
    requires WriterOk(cfg, t.slots, t.count, t.log, p, w)
    requires forall q :: q != p ==> By(t.log, q) == By(s.log, q)
    requires forall i :: 0 <= i < |t.log| ==> t.log[i].who in s.writers
    ensures Inv(cfg, t)
  {
    hide Shape, WriterOk, ReaderOk;
    HoldersAfter(s, t, p, w);
    OthersKept(cfg, s, t, p, w);
    ReadersKept(cfg, s, t);
  }

  /** Copying writes into the first slot nobody may read yet. */
  lemma CopyByte(cfg: Config, s: State, p: Pid)
    requires Inv(cfg, s) && p in s.writers && s.writers[p].phase.Copying?
    ensures Inv(cfg, WriterStep(cfg, s, p)) && WriterStep(cfg, s, p).log == s.log
  {
    hide ReaderOk;
    var w := s.writers[p];
    var t := WriterStep(cfg, s, p);
    assert WriterOk(cfg, s.slots, s.count, s.log, p, w);
    var item, at, k := w.script[w.done], w.phase.at, w.phase.k;
    assert p in Holders(s);
    if k < |item| {
      assert t.slots[at][..k + 1] == s.slots[at][..k] + [item[k]];
      assert item[..k + 1] == item[..k] + [item[k]];
      var w' := t.writers[p];
      assert WriterOk(cfg, t.slots, t.count, t.log, p, w');
      hide WriterOk, Inv;
      HolderStep(cfg, s, t, p, w');
    } else {
      assert s.slots[at][..k] == s.slots[at] && item[..k] == item;
      LocalStep(cfg, s, t, p, t.writers[p]);
    }
  }

  lemma ByAppend(log: seq<Entry>, e: Entry, p: Pid)
    ensures By(log + [e], p) == By(log, p) + if e.who == p then [e.item] else []
  {
    assert (log + [e])[..|log|] == log;
  }

  /** Storing the raised count publishes a whole item. */
  lemma Publish(cfg: Config, s: State, p: Pid)
    requires Inv(cfg, s) && p in s.writers && s.writers[p].phase.Raising?
    ensures var t := WriterStep(cfg, s, p);
      Inv(cfg, t) && t.log == s.log + [Entry(p, s.writers[p].script[s.writers[p].done])]
  {
    hide ReaderOk, By;
    var w := s.writers[p];
    var t := WriterStep(cfg, s, p);
    assert WriterOk(cfg, s.slots, s.count, s.log, p, w);
    assert w.script[..w.done + 1] == w.script[..w.done] + [w.script[w.done]];
    forall q ensures q != p ==> By(t.log, q) == By(s.log, q) {
      ByAppend(s.log, Entry(p, w.script[w.done]), q);
    }
    ByAppend(s.log, Entry(p, w.script[w.done]), p);
    assert p in Holders(s);
    HolderStep(cfg, s, t, p, t.writers[p]);
  }

  lemma Unlock(cfg: Config, s: State, p: Pid)
    requires Inv(cfg, s) && p in s.writers && (s.writers[p].phase.Counted? || s.writers[p].phase.Refused?)
    ensures Inv(cfg, WriterStep(cfg, s, p)) && WriterStep(cfg, s, p).log == s.log
  {
    var t := WriterStep(cfg, s, p);
    assert WriterOk(cfg, s.slots, s.count, s.log, p, s.writers[p]);
    LocalStep(cfg, s, t, p, t.writers[p]);
  }

  /** A death gives the lock back if the process held it, and leaves nothing
      half-written where anyone can see it. */
  lemma Death(cfg: Config, s: State, p: Pid)
    requires Inv(cfg, s) && p in s.writers
    ensures Inv(cfg, WriterDies(s, p)) && WriterDies(s, p).log == s.log
    ensures WriterDies(s, p).writers[p].phase.Left? && (p in Holders(s) ==> WriterDies(s, p).sem == 1)
  {
    if p in Holders(s) {
      OneHolder(cfg, s, p, p);
    }
    var t := WriterDies(s, p);
    assert WriterOk(cfg, s.slots, s.count, s.log, p, s.writers[p]);
    LocalStep(cfg, s, t, p, t.writers[p]);
  }

  // ----- a step of one reader

  lemma HitsAppend(s: seq<string>, i: nat, needle: string)
    requires i < |s|
    ensures Hits(s[..i + 1], needle) == Hits(s[..i], needle) + if Hit(s[i], needle) then [s[i]] else []
  {
    assert s[..i + 1][..i] == s[..i];
  }

  lemma ReadStepOk(cfg: Config, s: State, p: Pid)
    requires Shape(cfg, s) && p in s.readers && s.readers[p].scan.Reading?
    requires ReaderOk(s.slots, s.count, s.readers[p])
    ensures var t := ReaderStep(cfg, s, p);
      && t == WithReader(s, p, t.readers[p]) && ReaderOk(t.slots, t.count, t.readers[p])
  {
    hide Hit, Hits;
    var r := s.readers[p];
    var i, got := r.scan.i, r.scan.got;
    if |got| >= cfg.itemsize {
      assert s.slots[i][..cfg.itemsize] == s.slots[i];
      HitsAppend(s.slots, i, r.needle);
    } else {
      assert s.slots[i][..|got| + 1] == s.slots[i][..|got|] + [s.slots[i][|got|]];
    }
  }

  /** The reader that moves keeps its own part of the invariant. */
  lemma ScanStepOk(cfg: Config, s: State, p: Pid)
    requires Inv(cfg, s) && p in s.readers
    ensures var t := ReaderStep(cfg, s, p);
      && t == WithReader(s, p, t.readers[p]) && ReaderOk(t.slots, t.count, t.readers[p])
  {
    hide WriterOk, Hit, Hits;
    var r := s.readers[p];
    assert ReaderOk(s.slots, s.count, r);
    if r.scan.Reading? {
      hide ReaderStep, ReaderOk;
      ReadStepOk(cfg, s, p);
    }
  }

  lemma ReaderMoves(cfg: Config, s: State, p: Pid, r: Reader)
    requires Inv(cfg, s) && p in s.readers && ReaderOk(s.slots, s.count, r)
    ensures Inv(cfg, WithReader(s, p, r))
  {
    hide ReaderOk, WriterOk, By;
    var t := WithReader(s, p, r);
    assert Shape(cfg, t);
    hide Shape;
    assert Holders(t) == Holders(s);
    forall q | q in t.readers ensures ReaderOk(t.slots, t.count, t.readers[q]) {
      assert q != p ==> t.readers[q] == s.readers[q];
    }
  }

  /** Scanning without the lock changes nothing, stays inside the segment and sees
      whole items only. */
  lemma ScanStep(cfg: Config, s: State, p: Pid)
    requires Inv(cfg, s) && p in s.readers
    ensures Inv(cfg, ReaderStep(cfg, s, p)) && ReaderStep(cfg, s, p).log == s.log
  {
    hide ReaderStep, ReaderOk, Inv;
    ScanStepOk(cfg, s, p);
    var r := ReaderStep(cfg, s, p).readers[p];
    ReaderMoves(cfg, s, p, r);
  }

  // ----- runs

  /** Every step keeps the invariant, and entries are only ever added. */
  lemma StepInv(cfg: Config, s: State, e: Event)
    requires Inv(cfg, s)
    ensures Inv(cfg, Apply(cfg, s, e)) && s.log <= Apply(cfg, s, e).log
  {
    match e
    case RunWriter(p) =>
      if p in s.writers {
        match s.writers[p].phase
        case Idle => TryLock(cfg, s, p);
        case Locked => TestRoom(cfg, s, p);
        case Copying(_, _) => CopyByte(cfg, s, p);
        case Raising(_) => Publish(cfg, s, p);
        case Counted => Unlock(cfg, s, p);
        case Refused => Unlock(cfg, s, p);
        case Left =>
      }
    case KillWriter(p) =>
      if p in s.writers {
        Death(cfg, s, p);
      }
    case RunReader(p) =>
      if p in s.readers {
        ScanStep(cfg, s, p);
      }
    case KillReader(p) =>
      if p in s.readers {
        ReaderMoves(cfg, s, p, s.readers[p].(scan := Dead));
      }
  }

  /** Who takes part, what each client has to say and what each reader looks for
      never change. */
  ghost predicate SameParties(s: State, t: State) {
    && t.writers.Keys == s.writers.Keys && t.readers.Keys == s.readers.Keys
    && (forall p :: p in s.writers ==> t.writers[p].script == s.writers[p].script)
    && (forall p :: p in s.readers ==> t.readers[p].needle == s.readers[p].needle)
  }

  lemma WriterParties(cfg: Config, s: State, p: Pid)
    requires p in s.writers
    ensures SameParties(s, WriterStep(cfg, s, p))
  {
    hide NeedsGrowth, SameParties;
    var t := WriterStep(cfg, s, p);
    assert s.writers[p := s.writers[p]] == s.writers;
    assert t.writers == s.writers[p := t.writers[p]] && t.writers[p].script == s.writers[p].script;
    OneWriterMoved(s, t, p);
  }

  lemma OneWriterMoved(s: State, t: State, p: Pid)
    requires p in s.writers && p in t.writers && t.readers == s.readers
    requires t.writers == s.writers[p := t.writers[p]] && t.writers[p].script == s.writers[p].script
    ensures SameParties(s, t)
  {
  }

  lemma DeathParties(s: State, p: Pid)
    requires p in s.writers
    ensures SameParties(s, WriterDies(s, p))
  {
  }

  lemma ReaderParties(cfg: Config, s: State, p: Pid)
    requires p in s.readers
    ensures SameParties(s, ReaderStep(cfg, s, p)) && SameParties(s, ReaderAt(s, p, s.readers[p], Dead))
  {
    hide Hit, Published;
  }

  lemma StepParties(cfg: Config, s: State, e: Event)
    ensures SameParties(s, Apply(cfg, s, e))
  {
    hide WriterStep, WriterDies, ReaderStep, ReaderAt;
    if (e.RunWriter? || e.KillWriter?) && e.p in s.writers {
      WriterParties(cfg, s, e.p);
      DeathParties(s, e.p);
    } else if (e.RunReader? || e.KillReader?) && e.p in s.readers {
      ReaderParties(cfg, s, e.p);
    }
  }

  lemma {:induction false} ExecuteInv(cfg: Config, s: State, es: seq<Event>)
    requires Inv(cfg, s)
    ensures Inv(cfg, Execute(cfg, s, es)) && s.log <= Execute(cfg, s, es).log
    ensures SameParties(s, Execute(cfg, s, es))
    decreases |es|
  {
    hide Inv, Apply;
    if es != [] {
      StepInv(cfg, s, es[0]);
      StepParties(cfg, s, es[0]);
      ExecuteInv(cfg, Apply(cfg, s, es[0]), es[1..]);
    }
  }

  /** Safety of concurrent appending, in every state that any number of processes
      can reach, deaths included: the semaphore and the living holders add up to
      one and no two processes hold it; every published slot is a whole item, the
      one its writer had; every client's items stand in the list in the order of the
      script it started with; and nothing was written or read outside the segment. */
  lemma AppendIsSafe(cfg: Config, s0: State, es: seq<Event>)
    requires Initial(cfg, s0)
    ensures var s := Execute(cfg, s0, es);
      && !s.fault && s.writers.Keys == s0.writers.Keys
      && s.sem + |Holders(s)| == 1 && (Holders(s) == {} ==> s.sem == 1)
      && (forall p, q :: p in Holders(s) && q in Holders(s) ==> p == q)
      && s.count == |s.log| <= |s.slots|
      && (forall i :: 0 <= i < s.count ==> s.slots[i] == s.log[i].item && s.log[i].who in s0.writers)
      && (forall p :: p in s0.writers ==>
            var script, done := s0.writers[p].script, s.writers[p].done;
            done <= |script| && By(s.log, p) == script[..done])
  {
    var s := Execute(cfg, s0, es);
    InitialInv(cfg, s0);
    ExecuteInv(cfg, s0, es);
    forall p, q | p in Holders(s) && q in Holders(s) ensures p == q {
      OneHolder(cfg, s, p, q);
    }
    forall p | p in s.writers ensures WriterOk(cfg, s.slots, s.count, s.log, p, s.writers[p]) {
    }
  }

  lemma PublishedGrows(cfg: Config, s: State, t: State)
    requires Shape(cfg, s) && Shape(cfg, t) && s.log <= t.log
    ensures Published(s) <= Published(t)
  {
    assert forall i :: 0 <= i < s.count ==> t.slots[i] == t.log[i].item == s.log[i].item == s.slots[i];
  }

  /** What is published stays published, unchanged and in place. */
  lemma PublishedStays(cfg: Config, s0: State, es: seq<Event>, more: seq<Event>)
    requires Initial(cfg, s0)
    ensures Published(Execute(cfg, s0, es)) <= Published(Execute(cfg, Execute(cfg, s0, es), more))
  {
    hide Execute, Published, Initial;
    var s := Execute(cfg, s0, es);
    InitialInv(cfg, s0);
    ExecuteInv(cfg, s0, es);
    ExecuteInv(cfg, s, more);
    PublishedGrows(cfg, s, Execute(cfg, s, more));
  }

  /** The test that ends a scan takes its snapshot of a list all of which has been
      searched. */
  lemma ScanEnds(cfg: Config, s: State, p: Pid)
    requires Inv(cfg, s) && p in s.readers && !s.readers[p].scan.Finished?
    ensures var r := ReaderStep(cfg, s, p).readers[p];
      r.scan.Finished? ==> r.scan.snapshot == Published(s) && r.sent == Hits(Published(s), s.readers[p].needle)
  {
    hide Hit, Hits, WriterOk;
    assert ReaderOk(s.slots, s.count, s.readers[p]);
  }

  /** The lock-free scan is linearizable: when it ends, what it has sent is the
      filter of the whole list as it stood at the test that ended it. */
  lemma ScanIsLinearizable(cfg: Config, s0: State, es: seq<Event>, p: Pid)
    requires Initial(cfg, s0)
    requires var s := Execute(cfg, s0, es); p in s.readers && !s.readers[p].scan.Finished?
    ensures var s := Execute(cfg, s0, es);
      var t := ReaderStep(cfg, s, p);
      t.readers[p].scan.Finished? ==> t.readers[p].sent == Hits(Published(s), s.readers[p].needle)
  {
    hide Execute, Inv, Initial, ReaderStep, Published;
    InitialInv(cfg, s0);
    ExecuteInv(cfg, s0, es);
    ScanEnds(cfg, Execute(cfg, s0, es), p);
  }
}
