/** The list of child processes the client keeps. */
module Registry {
  import opened Bytes
  import opened Arrays

  datatype Child = Child(kind: char, pid: int)

  /** remChildProcess on the entries, from cursor `i` on. The entry that fills a
      gap is not looked at again. */
  function Sweep(s: seq<Child>, pid: int, i: nat): seq<Child>
    decreases |s| - i
  {
    if i >= |s| then s
    else if s[i].pid == pid then Sweep(WithoutAt(s, i), pid, i + 1)
    else Sweep(s, pid, i + 1)
  }

  function CountPid(s: seq<Child>, pid: int): (n: nat)
    ensures n <= |s|
  {
    if s == [] then 0
    else (if s[0].pid == pid then 1 else 0) + CountPid(s[1..], pid)
  }

  lemma {:induction false} CountPositive(s: seq<Child>, pid: int, k: nat)
    requires k < |s| && s[k].pid == pid
    ensures CountPid(s, pid) > 0
  {
    if k > 0 {
      CountPositive(s[1..], pid, k - 1);
    }
  }

  lemma {:induction false} CountSplit(s: seq<Child>, t: seq<Child>, pid: int)
    ensures CountPid(s + t, pid) == CountPid(s, pid) + CountPid(t, pid)
    decreases |s|
  {
    if s == [] {
      assert s + t == t;
    } else {
      assert (s + t)[1..] == s[1..] + t;
      CountSplit(s[1..], t, pid);
    }
  }

  /** Entries of other processes are all kept, as many times as before. */
  lemma {:induction false} OthersAreKept(s: seq<Child>, pid: int, i: nat, c: Child)
    requires c.pid != pid
    ensures multiset(Sweep(s, pid, i))[c] == multiset(s)[c]
    decreases |s| - i
  {
    if i < |s| {
      if s[i].pid == pid {
        WithoutAtKeepsOthers(s, i);
        OthersAreKept(WithoutAt(s, i), pid, i + 1, c);
      } else {
        OthersAreKept(s, pid, i + 1, c);
      }
    }
  }

  /** The last entries, one fewer than entries to remove from `i` on. */
  function Tail(s: seq<Child>, pid: int, i: nat): (t: seq<Child>)
    requires i <= |s|
  {
    var m := CountPid(s[i..], pid);
    if m == 0 then [] else s[|s| - (m - 1)..]
  }

  /** The sweep from `i` leaves an entry of the process behind at or after `i`
      exactly if one stands in the tail. */
  lemma {:induction false} SweepFrom(s: seq<Child>, pid: int, i: nat)
    requires i <= |s|
    ensures CountPid(Sweep(s, pid, i), pid) == 0
      <==> CountPid(s[..i], pid) == 0 && CountPid(Tail(s, pid, i), pid) == 0
    decreases |s| - i
  {
    assert CountPid([], pid) == 0;
    hide CountPid;
    var n := |s|;
    if i == n {
      assert s[..i] == s && s[i..] == [];
    } else if s[i].pid != pid {
      CountStep(s, pid, i);
      SweepFrom(s, pid, i + 1);
    } else if i == n - 1 {
      assert WithoutAt(s, i) == s[..i] && s[i + 1..] == [];
      CountStep(s, pid, i);
    } else {
      GapFilled(s, pid, i);
      SweepFrom(WithoutAt(s, i), pid, i + 1);
    }
  }

  lemma CountStep(s: seq<Child>, pid: int, i: nat)
    requires i < |s|
    ensures CountPid(s[i..], pid) == (if s[i].pid == pid then 1 else 0) + CountPid(s[i + 1..], pid)
    ensures CountPid(s[..i + 1], pid) == CountPid(s[..i], pid) + if s[i].pid == pid then 1 else 0
  {
    assert s[i..] == [s[i]] + s[i + 1..];
    assert s[..i + 1] == s[..i] + [s[i]];
    CountSplit(s[..i], [s[i]], pid);
  }

  /** What a removal at `i` does to the two counts that matter. */
  lemma GapFilled(s: seq<Child>, pid: int, i: nat)
    requires i + 1 < |s| && s[i].pid == pid
    ensures var r := WithoutAt(s, i);
      (CountPid(r[..i + 1], pid) == 0 && CountPid(Tail(r, pid, i + 1), pid) == 0)
      <==> (CountPid(s[..i], pid) == 0 && CountPid(Tail(s, pid, i), pid) == 0)
  {
    var n := |s|;
    var r, last := WithoutAt(s, i), s[n - 1];
    var middle := s[i + 1..n - 1];
    assert r[..i + 1] == s[..i] + [last] && r[i + 1..] == middle;
    CountSplit(s[..i], [last], pid);
    CountStep(s, pid, i);
    assert s[i + 1..] == middle + [last];
    CountSplit(middle, [last], pid);
    hide CountPid;
    TailShrinks(s, pid, i);
  }

  lemma TailShrinks(s: seq<Child>, pid: int, i: nat)
    requires i + 1 < |s| && s[i].pid == pid
    requires CountPid(s[i..], pid) == 1 + CountPid(s[i + 1..|s| - 1], pid) + CountPid([s[|s| - 1]], pid)
    ensures var last := s[|s| - 1];
      if last.pid == pid then CountPid([last], pid) > 0 && CountPid(Tail(s, pid, i), pid) > 0
      else CountPid([last], pid) == 0 && CountPid(Tail(s, pid, i), pid) == CountPid(Tail(WithoutAt(s, i), pid, i + 1), pid)
  {
    var n := |s|;
    var r, last, m := WithoutAt(s, i), s[n - 1], CountPid(s[i..], pid);
    var t, t' := Tail(s, pid, i), Tail(r, pid, i + 1);
    assert r[i + 1..] == s[i + 1..n - 1];
    if last.pid == pid {
      CountPositive(t, pid, |t| - 1);
    } else if m > 1 {
      assert t' == s[n - (m - 1)..n - 1];
      assert t == t' + [last];
      CountSplit(t', [last], pid);
    }
  }

  /** remChildProcess removes every entry of the process exactly if none of the
      last m - 1 entries is one, where m is their number. */
  lemma RemovalIsCompleteIff(s: seq<Child>, pid: int)
    ensures var m := CountPid(s, pid);
      CountPid(Sweep(s, pid, 0), pid) == 0 <==> m == 0 || CountPid(s[|s| - (m - 1)..], pid) == 0
  {
    SweepFrom(s, pid, 0);
    assert s[0..] == s;
  }

  /** Two entries of one process side by side: one survives. */
  lemma DuplicateSurvives(c: Child)
    ensures Sweep([c, c], c.pid, 0) == [c]
  {
  }

  ghost predicate DistinctPids(s: seq<Child>) {
    forall j, k :: 0 <= j < k < |s| ==> s[j].pid != s[k].pid
  }

  lemma {:induction false} CountDistinct(s: seq<Child>, pid: int)
    requires DistinctPids(s)
    ensures CountPid(s, pid) <= 1
  {
    if s != [] {
      CountDistinct(s[1..], pid);
      if s[0].pid == pid {
        NoneLeft(s[1..], pid);
      }
    }
  }

  lemma {:induction false} NoneLeft(s: seq<Child>, pid: int)
    ensures CountPid(s, pid) == 0 <==> forall c :: c in s ==> c.pid != pid
  {
    if s != [] {
      assert forall c :: c in s <==> c == s[0] || c in s[1..];
      NoneLeft(s[1..], pid);
    }
  }

  lemma SoleEntry(s: seq<Child>, k: nat, c: Child)
    requires DistinctPids(s) && k < |s| && s[k].pid == c.pid
    ensures multiset(s)[c] == if c == s[k] then 1 else 0
  {
    assert s == s[..k] + [s[k]] + s[k + 1..];
    assert c !in s[..k] && c !in s[k + 1..];
  }

  /** With distinct pids exactly the entry of that process goes. */
  lemma DistinctRemoval(s: seq<Child>, pid: int, k: nat)
    requires DistinctPids(s) && k < |s| && s[k].pid == pid
    ensures multiset(Sweep(s, pid, 0)) == multiset(s) - multiset{s[k]}
  {
    hide CountPid, Sweep;
    var r := Sweep(s, pid, 0);
    CountDistinct(s, pid);
    CountPositive(s, pid, k);
    RemovalIsCompleteIff(s, pid);
    assert s[|s|..] == [];
    NoneLeft([], pid);
    NoneLeft(r, pid);
    forall c: Child ensures multiset(r)[c] == (multiset(s) - multiset{s[k]})[c] {
      if c.pid != pid {
        OthersAreKept(s, pid, 0, c);
      } else {
        assert c !in r;
        SoleEntry(s, k, c);
      }
    }
  }

  /** addChildProcess */
  method AddChildProcess(cpa: ItemArray<Child>, kind: char, pid: int) returns (ok: bool)
    requires cpa.Valid() && !cpa.shared
    modifies cpa, cpa.mem
    ensures cpa.Valid() && ok && cpa.Items() == old(cpa.Items()) + [Child(kind, pid)]
  {
    ok := cpa.AddItem(Child(kind, pid));
  }

  /** remChildProcess: iterates while it removes. */
  method RemChildProcess(cpa: ItemArray<Child>, pid: int) returns (r: int)
    requires cpa.Valid()
    modifies cpa, cpa.mem
    ensures cpa.Valid() && r == 1
    ensures cpa.Items() == Sweep(old(cpa.Items()), pid, 0)
  {
    var i := 0;
    var c;
    c, i := cpa.Iterate(i);
    while c.Some?
      invariant cpa.Valid() && cpa.mem == old(cpa.mem) && i > 0
      invariant c == if i - 1 < cpa.itemcount then Some(cpa.Items()[i - 1]) else None
      invariant Sweep(cpa.Items(), pid, i - 1) == Sweep(old(cpa.Items()), pid, 0)
      decreases cpa.itemcount + 1 - i
    {
      if pid == c.value.pid {
        var e := cpa.RemoveItem(i - 1);
        if e == -1 {
          return -1;
        }
      }
      c, i := cpa.Iterate(i);
    }
    return 1;
  }
}
