/** The client's printer of its shared directory tree. */
module Directory {
  import opened Bytes
  import opened Buffers
  import opened Decimal

  /** What readdir and stat show of a tree. A folder that does not open, an entry
      whose stat fails and a listing that breaks off all end the walk. */
  datatype Node = File(name: string, size: nat) | Folder(name: string, dir: Dir) | Special(name: string) | Gone(name: string)
  datatype Dir = Dir(opens: bool, entries: seq<Node>, complete: bool)

  datatype Record = Record(path: string, size: nat)

  predicate Hidden(name: string) {
    name != "" && name[0] == '.'
  }

  /** path_join */
  function Join(basedir: string, subdir: string): string {
    basedir + "/" + subdir
  }

  // ----- the records of a walk, in order

  datatype Listing = Listing(records: seq<Record>, ok: bool)

  function Then(a: Listing, b: Listing): Listing {
    if a.ok then Listing(a.records + b.records, b.ok) else a
  }

  function WalkDir(d: Dir, subdir: string): Listing
    decreases d, 1
  {
    if !d.opens then Listing([], false)
    else
      var l := WalkEntries(d, 0, subdir);
      Listing(l.records, l.ok && d.complete)
  }

  function WalkEntries(d: Dir, i: nat, subdir: string): Listing
    requires i <= |d.entries|
    decreases d, 0, |d.entries| - i
  {
    if i == |d.entries| then Listing([], true)
    else
      var e := d.entries[i];
      Then(WalkNode(e, subdir), WalkEntries(d, i + 1, subdir))
  }

  function WalkNode(e: Node, subdir: string): Listing
    decreases e
  {
    if Hidden(e.name) then Listing([], true)
    else
      match e
      case File(name, size) => Listing([Record(Join(subdir, name), size)], true)
      case Folder(name, dir) => WalkDir(dir, Join(subdir, name))
      case Special(_) => Listing([], true)
      case Gone(_) => Listing([], false)
  }

  /** The bytes that go over the wire: a line with the path, a line with the size
      as %d prints it. */
  function Encode(rs: seq<Record>): string {
    if rs == [] then ""
    else rs[0].path + "\n" + Print(ToInt32(rs[0].size)) + "\n" + Encode(rs[1..])
  }

  lemma EncodeOne(r: Record)
    ensures Encode([r]) == r.path + "\n" + Print(ToInt32(r.size)) + "\n"
  {
  }

  lemma {:induction false} EncodeAppend(a: seq<Record>, b: seq<Record>)
    ensures Encode(a + b) == Encode(a) + Encode(b)
    decreases |a|
  {
    if a == [] {
      assert a + b == b;
    } else {
      hide Print;
      assert (a + b)[0] == a[0] && (a + b)[1..] == a[1..] + b;
      EncodeAppend(a[1..], b);
    }
  }

  lemma WalkEnd(d: Dir, subdir: string)
    ensures WalkEntries(d, |d.entries|, subdir) == Listing([], true) && Encode([]) == ""
    ensures forall s: string :: s + Encode([]) == s
  {
  }

  lemma EncodeStep(d: Dir, i: nat, subdir: string)
    requires i < |d.entries|
    ensures var all, here, rest := WalkEntries(d, i, subdir), WalkNode(d.entries[i], subdir), WalkEntries(d, i + 1, subdir);
      && all.ok == (here.ok && rest.ok)
      && (here.ok ==> forall s: string :: s + Encode(all.records) == s + Encode(here.records) + Encode(rest.records))
      && (!here.ok ==> all == here)
  {
    hide Encode, WalkNode;
    var here, rest := WalkNode(d.entries[i], subdir), WalkEntries(d, i + 1, subdir);
    EncodeAppend(here.records, rest.records);
    forall s: string ensures s + (Encode(here.records) + Encode(rest.records)) == s + Encode(here.records) + Encode(rest.records) {
    }
  }

  // ----- when a walk is complete, and how far one comes that is not

  /** A tree without anything that ends a walk: it opens, its listing does not break
      off, and of the entries that are not hidden none fails to be looked up and
      every folder is such a tree. */
  ghost predicate Walkable(d: Dir)
    decreases d, 1
  {
    d.opens && d.complete && forall i :: 0 <= i < |d.entries| ==> Passable(d.entries[i])
  }

  ghost predicate Passable(e: Node)
    decreases e, 0
  {
    Hidden(e.name) || (!e.Gone? && (e.Folder? ==> Walkable(e.dir)))
  }

  lemma {:induction false} EntriesWalkableIff(d: Dir, i: nat, subdir: string)
    requires i <= |d.entries|
    ensures WalkEntries(d, i, subdir).ok <==> forall k :: i <= k < |d.entries| ==> Passable(d.entries[k])
    decreases d, 0, |d.entries| - i
  {
    if i < |d.entries| {
      var e := d.entries[i];
      if e.Folder? {
        WalkOkIff(e.dir, Join(subdir, e.name));
      }
      EntriesWalkableIff(d, i + 1, subdir);
    }
  }

  /** A walk is complete if and only if nothing in the tree ends it. */
  lemma {:induction false} WalkOkIff(d: Dir, subdir: string)
    ensures WalkDir(d, subdir).ok <==> Walkable(d)
    decreases d, 1
  {
    EntriesWalkableIff(d, 0, subdir);
  }

  /** The first entry from `i` on that ends a walk, or the number of entries. */
  ghost function FirstFailure(d: Dir, i: nat): (k: nat)
    requires i <= |d.entries|
    ensures i <= k <= |d.entries|
    ensures forall j :: i <= j < k ==> Passable(d.entries[j])
    ensures k < |d.entries| ==> !Passable(d.entries[k])
    decreases |d.entries| - i
  {
    if i < |d.entries| && Passable(d.entries[i]) then FirstFailure(d, i + 1) else i
  }

  /** The tree before its first failure: a folder loses all entries behind the first
      that ends a walk, and of that entry what comes before its own failure stays. */
  ghost function Before(d: Dir): Dir
    decreases d
  {
    if !d.opens then Dir(true, [], true)
    else
      var k := FirstFailure(d, 0);
      Dir(true, d.entries[..k] +
        (if k < |d.entries| && d.entries[k].Folder? then
           [Folder(d.entries[k].name, Before(d.entries[k].dir))]
         else []), true)
  }

  lemma {:induction false} BeforeIsWalkable(d: Dir)
    ensures Walkable(Before(d))
    decreases d
  {
    var k := FirstFailure(d, 0);
    if d.opens && k < |d.entries| && d.entries[k].Folder? {
      BeforeIsWalkable(d.entries[k].dir);
    }
  }

  /** Two folders with the same entries from `i` on walk alike from there. */
  lemma {:induction false} SameEntries(d: Dir, b: Dir, i: nat, k: nat, subdir: string)
    requires i <= k <= |d.entries| && k <= |b.entries|
    requires forall j :: i <= j < k ==> d.entries[j] == b.entries[j] && Passable(d.entries[j])
    ensures WalkEntries(d, k, subdir).records == WalkEntries(b, k, subdir).records ==>
      WalkEntries(d, i, subdir).records == WalkEntries(b, i, subdir).records
    decreases k - i
  {
    if i < k {
      var e := d.entries[i];
      if e.Folder? {
        WalkOkIff(e.dir, Join(subdir, e.name));
      }
      assert WalkNode(e, subdir).ok;
      SameEntries(d, b, i + 1, k, subdir);
    }
  }

  /** A walk that is cut short has the records of the tree before the failure. */
  lemma {:induction false} WalkIsBefore(d: Dir, subdir: string)
    ensures WalkDir(d, subdir).records == WalkDir(Before(d), subdir).records
    decreases d
  {
    if d.opens {
      var k, b := FirstFailure(d, 0), Before(d);
      if k < |d.entries| {
        var e := d.entries[k];
        if e.Folder? {
          WalkIsBefore(e.dir, Join(subdir, e.name));
          WalkOkIff(e.dir, Join(subdir, e.name));
        }
        FailureEnds(d, b, k, subdir);
      }
      SameEntries(d, b, 0, k, subdir);
    }
  }

  lemma FailureEnds(d: Dir, b: Dir, k: nat, subdir: string)
    requires k < |d.entries| && k <= |b.entries| && !Passable(d.entries[k])
    requires var e := d.entries[k];
      if e.Folder? then
        && b.entries[k..] == [Folder(e.name, Before(e.dir))]
        && WalkDir(e.dir, Join(subdir, e.name)).records == WalkDir(Before(e.dir), Join(subdir, e.name)).records
        && !WalkDir(e.dir, Join(subdir, e.name)).ok
      else b.entries[k..] == []
    ensures WalkEntries(d, k, subdir).records == WalkEntries(b, k, subdir).records
  {
    var e := d.entries[k];
    if e.Folder? {
      hide WalkDir, Before, Passable;
      assert b.entries[k] == b.entries[k..][0] && |b.entries| == k + 1;
      var here := WalkNode(b.entries[k], subdir);
      assert WalkEntries(b, k + 1, subdir) == Listing([], true);
      assert Then(here, Listing([], true)).records == here.records;
    }
  }

  /** parseDirToFD: writes as it walks. It returns 1 exactly if nothing in the tree
      ended the walk and no write failed; after a failed write there is no other. On
      a reliable connection it writes the records of the walk. */
  method ParseDirToFD(fd: Sink, d: Dir, subdir: string) returns (r: int)
    modifies fd
    ensures r == if Walkable(d) && fd.failures == old(fd.failures) then 1 else -1
    ensures old(fd.failures) <= fd.failures <= old(fd.failures) + 1
    ensures fd.reliable ==>
      && fd.failures == old(fd.failures)
      && fd.written == old(fd.written) + Encode(WalkDir(d, subdir).records)
    decreases d
  {
    hide Encode, Print, WalkEntries, Join;
    WalkEnd(d, subdir);
    if !d.opens {
      return -1;
    }
    ghost var all := WalkEntries(d, 0, subdir);
    var i := 0;
    while i < |d.entries|
      invariant i <= |d.entries| && fd.failures == old(fd.failures)
      invariant forall k :: 0 <= k < i ==> Passable(d.entries[k])
      invariant fd.reliable ==>
        var rest := WalkEntries(d, i, subdir);
        all.ok == rest.ok && fd.written + Encode(rest.records) == old(fd.written) + Encode(all.records)
    {
      var e := d.entries[i];
      EncodeStep(d, i, subdir);
      i := i + 1;
      if Hidden(e.name) {
        continue;
      }
      match e {
        case Gone(_) =>
          return -1;
        case Folder(name, dir) =>
          WalkOkIff(dir, Join(subdir, name));
          var s := ParseDirToFD(fd, dir, Join(subdir, name));
          if s == -1 {
            return -1;
          }
        case File(name, size) =>
          EncodeOne(Record(Join(subdir, name), size));
          var n := fd.WriteWrapper(Join(subdir, name) + "\n" + Print(ToInt32(size)) + "\n");
          if n == -1 {
            return -1;
          }
        case Special(_) =>
      }
    }
    if !d.complete {
      return -1;
    }
    return 1;
  }

  // ----- which files those are

  /** `names` leads from `d` through visible folders to a visible regular file. */
  ghost predicate HasFile(d: Dir, names: seq<string>, size: nat)
    decreases |names|
  {
    names != [] && !Hidden(names[0])
    && if |names| == 1 then File(names[0], size) in d.entries
       else exists sub :: Folder(names[0], sub) in d.entries && HasFile(sub, names[1..], size)
  }

  function PathOf(subdir: string, names: seq<string>): string
    decreases |names|
  {
    if names == [] then subdir else PathOf(Join(subdir, names[0]), names[1..])
  }

  ghost predicate Listed(d: Dir, subdir: string, r: Record) {
    exists names :: HasFile(d, names, r.size) && r.path == PathOf(subdir, names)
  }

  lemma ListedInside(d: Dir, e: Node, subdir: string, r: Record)
    requires e in d.entries && e.Folder? && !Hidden(e.name)
    requires Listed(e.dir, Join(subdir, e.name), r)
    ensures Listed(d, subdir, r)
  {
    var names :| HasFile(e.dir, names, r.size) && r.path == PathOf(Join(subdir, e.name), names);
    var all := [e.name] + names;
    assert all[1..] == names;
    assert HasFile(d, all, r.size) && PathOf(subdir, all) == r.path;
  }

  lemma {:induction false} WalkedIsListed(d: Dir, i: nat, subdir: string, r: Record)
    requires i <= |d.entries| && r in WalkEntries(d, i, subdir).records
    ensures Listed(d, subdir, r)
    decreases d, |d.entries| - i
  {
    if i < |d.entries| {
      var e := d.entries[i];
      if r in WalkNode(e, subdir).records {
        match e
        case File(name, size) =>
          assert [name][1..] == [];
          assert HasFile(d, [name], r.size) && PathOf(subdir, [name]) == r.path;
        case Folder(name, dir) =>
          assert WalkNode(e, subdir) == WalkDir(dir, Join(subdir, name));
          WalkedIsListed(dir, 0, Join(subdir, name), r);
          ListedInside(d, e, subdir, r);
      } else {
        WalkedIsListed(d, i + 1, subdir, r);
      }
    }
  }

  lemma {:induction false} EntryIsWalked(d: Dir, i: nat, k: nat, subdir: string, r: Record)
    requires i <= k < |d.entries| && WalkEntries(d, i, subdir).ok
    requires WalkNode(d.entries[k], subdir).ok ==> r in WalkNode(d.entries[k], subdir).records
    ensures r in WalkEntries(d, i, subdir).records
    decreases k - i
  {
    if i < k {
      EntryIsWalked(d, i + 1, k, subdir, r);
    }
  }

  lemma {:induction false} FileIsWalked(d: Dir, subdir: string, names: seq<string>, size: nat)
    requires WalkDir(d, subdir).ok && HasFile(d, names, size)
    ensures Record(PathOf(subdir, names), size) in WalkDir(d, subdir).records
    decreases |names|
  {
    var r := Record(PathOf(subdir, names), size);
    if |names| == 1 {
      var k :| 0 <= k < |d.entries| && d.entries[k] == File(names[0], size);
      assert names[1..] == [];
      EntryIsWalked(d, 0, k, subdir, r);
    } else {
      var sub :| Folder(names[0], sub) in d.entries && HasFile(sub, names[1..], size);
      var k :| 0 <= k < |d.entries| && d.entries[k] == Folder(names[0], sub);
      assert WalkNode(d.entries[k], subdir) == WalkDir(sub, Join(subdir, names[0]));
      assert r.path == PathOf(Join(subdir, names[0]), names[1..]);
      if WalkDir(sub, Join(subdir, names[0])).ok {
        FileIsWalked(sub, Join(subdir, names[0]), names[1..], size);
      }
      EntryIsWalked(d, 0, k, subdir, r);
    }
  }

  /** A walk that was not cut short lists exactly the regular files that no
      hidden name lies on the way to, under their joined paths. */
  lemma WalkListsExactly(d: Dir, subdir: string, r: Record)
    requires WalkDir(d, subdir).ok
    ensures r in WalkDir(d, subdir).records <==> Listed(d, subdir, r)
  {
    if r in WalkDir(d, subdir).records {
      WalkedIsListed(d, 0, subdir, r);
    }
    if Listed(d, subdir, r) {
      var names :| HasFile(d, names, r.size) && r.path == PathOf(subdir, names);
      FileIsWalked(d, subdir, names, r.size);
    }
  }

  /** `names` leads from `d` through folders to a regular file, whatever they are. */
  ghost predicate Leads(d: Dir, names: seq<string>, size: nat)
    decreases |names|
  {
    names != []
    && if |names| == 1 then File(names[0], size) in d.entries
       else exists sub :: Folder(names[0], sub) in d.entries && Leads(sub, names[1..], size)
  }

  /** The files that a walk leaves out are those with a dot in front of a name on the
      way: of a file that is one of its folders, or its own. */
  lemma {:induction false} VisibleIff(d: Dir, names: seq<string>, size: nat)
    ensures HasFile(d, names, size) <==>
      Leads(d, names, size) && forall n :: n in names ==> n == "" || n[0] != '.'
    decreases |names|
  {
    if |names| == 1 {
      assert forall n :: n in names <==> n == names[0];
    } else if names != [] {
      forall sub ensures HasFile(sub, names[1..], size) <==>
        Leads(sub, names[1..], size) && forall n :: n in names[1..] ==> n == "" || n[0] != '.'
      {
        VisibleIff(sub, names[1..], size);
      }
      assert forall n :: n in names <==> n == names[0] || n in names[1..];
    }
  }

  /** Any walk, complete or not, lists exactly the visible regular files of the tree
      before its first failure. */
  lemma CutWalkListsExactly(d: Dir, subdir: string, r: Record)
    ensures r in WalkDir(d, subdir).records <==> Listed(Before(d), subdir, r)
  {
    WalkIsBefore(d, subdir);
    BeforeIsWalkable(d);
    WalkOkIff(Before(d), subdir);
    WalkListsExactly(Before(d), subdir, r);
  }

  // ----- each file once

  /** As file systems have it: no two entries of a folder share a name, and no name
      contains the separator. */
  ghost predicate ProperNames(d: Dir)
    decreases d
  {
    && (forall i, j :: 0 <= i < j < |d.entries| ==> d.entries[i].name != d.entries[j].name)
    && (forall e :: e in d.entries ==> '/' !in e.name && (e.Folder? ==> ProperNames(e.dir)))
  }

  ghost predicate DistinctPaths(rs: seq<Record>) {
    forall i, j :: 0 <= i < j < |rs| ==> rs[i].path != rs[j].path
  }

  /** The path is that of the entry or lies below it. */
  predicate Under(path: string, subdir: string, name: string) {
    var top := Join(subdir, name);
    top <= path && (|path| == |top| || path[|top|] == '/')
  }

  /** Such a path gives the entry away: its name runs to the next separator. */
  lemma UnderName(path: string, subdir: string, name: string)
    requires '/' !in name && Under(path, subdir, name)
    ensures var tail := path[|subdir| + 1..]; name == tail[..IndexOf(tail, '/')]
  {
    var n := |subdir| + 1;
    var tail := path[n..];
    assert tail[..|name|] == Join(subdir, name)[n..] == name;
    if |name| < |tail| {
      IndexOfUnique(tail, '/', |name|);
    } else {
      assert tail == name;
    }
  }

  lemma {:induction false} PathsBelow(subdir: string, names: seq<string>)
    ensures subdir <= PathOf(subdir, names)
    ensures names != [] ==> |subdir| < |PathOf(subdir, names)| && PathOf(subdir, names)[|subdir|] == '/'
    decreases |names|
  {
    if names != [] {
      PathsBelow(Join(subdir, names[0]), names[1..]);
      assert Join(subdir, names[0])[|subdir|] == '/';
    }
  }

  lemma NodeIsUnder(e: Node, subdir: string, r: Record)
    requires r in WalkNode(e, subdir).records
    ensures Under(r.path, subdir, e.name)
  {
    if e.Folder? {
      assert WalkNode(e, subdir) == WalkDir(e.dir, Join(subdir, e.name));
      WalkedIsListed(e.dir, 0, Join(subdir, e.name), r);
      var names :| HasFile(e.dir, names, r.size) && r.path == PathOf(Join(subdir, e.name), names);
      PathsBelow(Join(subdir, e.name), names);
    }
  }

  /** Everything walked from entry `i` on lies under one of those entries. */
  lemma {:induction false} EntriesAreUnder(d: Dir, i: nat, subdir: string, r: Record) returns (k: nat)
    requires i <= |d.entries| && r in WalkEntries(d, i, subdir).records
    ensures i <= k < |d.entries| && Under(r.path, subdir, d.entries[k].name)
    decreases |d.entries| - i
  {
    if r in WalkNode(d.entries[i], subdir).records {
      NodeIsUnder(d.entries[i], subdir, r);
      k := i;
    } else {
      k := EntriesAreUnder(d, i + 1, subdir, r);
    }
  }

  lemma DistinctAppend(a: seq<Record>, b: seq<Record>)
    requires DistinctPaths(a) && DistinctPaths(b)
    requires forall x, y :: x in a && y in b ==> x.path != y.path
    ensures DistinctPaths(a + b)
  {
    var all := a + b;
    forall i, j | 0 <= i < j < |all| ensures all[i].path != all[j].path {
      assert i < |a| ==> all[i] in a;
      assert j >= |a| ==> all[j] in b;
    }
  }

  lemma {:induction false} EntriesAreDistinct(d: Dir, i: nat, subdir: string)
    requires ProperNames(d) && i <= |d.entries|
    ensures DistinctPaths(WalkEntries(d, i, subdir).records)
    decreases d, |d.entries| - i
  {
    if i < |d.entries| {
      var e := d.entries[i];
      var here, rest := WalkNode(e, subdir).records, WalkEntries(d, i + 1, subdir).records;
      assert e in d.entries;
      assert DistinctPaths(here) by {
        if e.Folder? && !Hidden(e.name) {
          assert WalkNode(e, subdir) == WalkDir(e.dir, Join(subdir, e.name));
          EntriesAreDistinct(e.dir, 0, Join(subdir, e.name));
        }
      }
      EntriesAreDistinct(d, i + 1, subdir);
      forall x, y | x in here && y in rest ensures x.path != y.path {
        NodeIsUnder(e, subdir, x);
        var k := EntriesAreUnder(d, i + 1, subdir, y);
        UnderName(x.path, subdir, e.name);
        UnderName(y.path, subdir, d.entries[k].name);
      }
      DistinctAppend(here, rest);
    }
  }

  /** With proper names a complete walk lists every visible regular file, and each
      under a path of its own: exactly once. */
  lemma WalkListsOnce(d: Dir, subdir: string)
    requires WalkDir(d, subdir).ok && ProperNames(d)
    ensures var rs := WalkDir(d, subdir).records;
      DistinctPaths(rs) && forall r :: r in rs <==> Listed(d, subdir, r)
  {
    EntriesAreDistinct(d, 0, subdir);
    forall r ensures r in WalkDir(d, subdir).records <==> Listed(d, subdir, r) {
      WalkListsExactly(d, subdir, r);
    }
  }
}
