/** A client's tree and the entries that end up in the server's shared array. */
module Sharing {
  import opened Bytes
  import opened Buffers
  import opened Lines
  import opened Tokenizer
  import opened Decimal
  import opened Arrays
  import opened Directory
  import opened FileList
  import opened Transfer

  function Names(entries: seq<FlEntry>): seq<string> {
    if entries == [] then [] else [entries[0].filename] + Names(entries[1..])
  }

  function PathsOf(rs: seq<Record>): seq<string> {
    if rs == [] then [] else [rs[0].path] + PathsOf(rs[1..])
  }

  lemma {:induction false} PathsOfAppend(a: seq<Record>, b: seq<Record>)
    ensures PathsOf(a + b) == PathsOf(a) + PathsOf(b)
    decreases |a|
  {
    if a == [] {
      assert a + b == b;
    } else {
      assert (a + b)[0] == a[0] && (a + b)[1..] == a[1..] + b;
      PathsOfAppend(a[1..], b);
    }
  }

  lemma {:induction false} PathsOfMembers(rs: seq<Record>, path: string)
    ensures |PathsOf(rs)| == |rs|
    ensures path in PathsOf(rs) <==> exists r :: r in rs && r.path == path
  {
    if rs != [] {
      PathsOfMembers(rs[1..], path);
      assert forall r :: r in rs <==> r == rs[0] || r in rs[1..];
      assert rs[0] in rs;
    }
  }

  /** Whatever was read, the stored names are the accepted ones. */
  lemma {:induction false} NamesAreReceived(items: seq<Item>, ip: string, junk: nat)
    ensures Names(Stored(items, ip, junk)) == PathsOf(Received(items))
    decreases |items|
  {
    if items != [] {
      var rest := items[1..];
      if Accepted(items[0]) {
        NamesAreReceived(rest, ip, junk);
        var stored, received := Stored(items, ip, junk), Received(items);
        assert stored[1..] == Stored(rest, ip, junk) && received[1..] == Received(rest);
      } else {
        NamesAreReceived(rest, ip, items[0].parsed.number % 0x1_0000_0000_0000_0000);
        assert Received(items) == Received(rest);
      }
    }
  }

  /** What the name of a record needs to arrive: a path on one line that does not end
      in a carriage return and fits the buffer, and a printed size that is not
      negative. */
  predicate NameSurvives(r: Record, bufmax: nat) {
    LF !in r.path && !EndsWith(r.path, CR) && |r.path| + 2 <= bufmax && ToInt32(r.size) >= 0
  }

  ghost predicate AllNamesSurvive(rs: seq<Record>, bufmax: nat) {
    forall r :: r in rs ==> NameSurvives(r, bufmax)
  }

  lemma NameKept(r: Record, bufmax: nat)
    requires LF !in r.path && |r.path| + 2 <= bufmax
    ensures PathsOf(Received([ItemOf(r)])) == [r.path] <==> NameSurvives(r, bufmax)
    ensures |Received([ItemOf(r)])| <= 1
  {
    assert [ItemOf(r)][1..] == [];
    if Accepted(ItemOf(r)) {
      var q := Record(Chomp(r.path), ToInt32(r.size));
      assert Received([ItemOf(r)]) == [q];
      assert [q][1..] == [] && PathsOf([q]) == [q.path];
      assert [q.path] == [r.path] <==> q.path == r.path;
    }
  }

  lemma {:induction false} NamesOfSurvivors(rs: seq<Record>, bufmax: nat)
    requires OneLiners(rs) && FitsBuffer(rs, bufmax)
    ensures PathsOf(Received(ItemsOf(rs))) == PathsOf(rs) <==> AllNamesSurvive(rs, bufmax)
  {
    if rs != [] {
      hide NameSurvives, ItemOf, Received, ItemsOf, OneLiners, FitsBuffer;
      var r, rest := rs[0], rs[1..];
      AllSurviveStep(rs, bufmax);
      NamesOfSurvivors(rest, bufmax);
      NameKept(r, bufmax);
      ReceivedIsShort(ItemsOf(rest));
      ItemsOfLength(rest);
      ReceivedStep(rs);
      var first, others := Received([ItemOf(r)]), Received(ItemsOf(rest));
      PathsOfAppend(first, others);
      PathsOfMembers(first, "");
      PathsOfMembers(others, "");
      PathsOfMembers(rest, "");
      SplitEqual(PathsOf(first), PathsOf(others), r.path, PathsOf(rest));
      assert forall q :: q in rs <==> q == r || q in rest;
    }
  }

  /** The names in the array are the paths of the printed list, in order, if and only
      if every name survives. */
  lemma NamesArriveIff(rs: seq<Record>, bufmax: nat, ip: string, junk: nat)
    requires 16 <= bufmax && Paths(rs)
    ensures Names(Stored(Items(Encode(rs), bufmax), ip, junk)) == PathsOf(rs) <==> AllNamesSurvive(rs, bufmax)
  {
    hide Items, Encode, Received, ItemsOf, Stored, PathsOf, Names;
    var items := Items(Encode(rs), bufmax);
    NamesAreReceived(items, ip, junk);
    if OneLiners(rs) && FitsBuffer(rs, bufmax) {
      EncodedIsRead(rs, bufmax);
      NamesOfSurvivors(rs, bufmax);
    } else {
      var bad :| bad in rs && (LF in bad.path || |bad.path| + 2 > bufmax);
      PathsOfMembers(rs, bad.path);
      PathsOfMembers(Received(items), bad.path);
      if r :| r in Received(items) && r.path == bad.path {
        NamesAreOneLiners(Encode(rs), bufmax, r);
      }
    }
  }

  // ----- whole entries

  /** The entries one would expect: name, size and sender of every record. */
  function EntriesOf(rs: seq<Record>, ip: string): seq<FlEntry> {
    if rs == [] then [] else [FlEntry(rs[0].path, rs[0].size, ip)] + EntriesOf(rs[1..], ip)
  }

  lemma {:induction false} NamesOfEntries(rs: seq<Record>, ip: string)
    ensures Names(EntriesOf(rs, ip)) == PathsOf(rs)
  {
    if rs != [] {
      NamesOfEntries(rs[1..], ip);
      assert EntriesOf(rs, ip)[1..] == EntriesOf(rs[1..], ip);
    }
  }

  function WithSize(rs: seq<Record>, size: nat): seq<Record> {
    if rs == [] then [] else [Record(rs[0].path, size)] + WithSize(rs[1..], size)
  }

  lemma {:induction false} SameEntriesIff(rs: seq<Record>, ip: string, junk: nat)
    ensures EntriesOf(WithSize(rs, junk), ip) == EntriesOf(rs, ip) <==> forall r :: r in rs ==> r.size == junk
  {
    if rs != [] {
      var r, rest := rs[0], rs[1..];
      SameEntriesIff(rest, ip, junk);
      var stored, expected := EntriesOf(WithSize(rs, junk), ip), EntriesOf(rs, ip);
      assert WithSize(rs, junk)[1..] == WithSize(rest, junk);
      assert stored[0] == expected[0] <==> r.size == junk;
      assert stored[1..] == EntriesOf(WithSize(rest, junk), ip) && expected[1..] == EntriesOf(rest, ip);
      assert stored == [stored[0]] + stored[1..] && expected == [expected[0]] + expected[1..];
      assert forall q :: q in rs <==> q == r || q in rest;
    }
  }

  lemma {:induction false} StoredWithSize(rs: seq<Record>, bufmax: nat, ip: string, junk: nat)
    requires AllNamesSurvive(rs, bufmax)
    ensures Stored(ItemsOf(rs), ip, junk) == EntriesOf(WithSize(rs, junk), ip)
  {
    if rs != [] {
      var r, rest := rs[0], rs[1..];
      StoredWithSize(rest, bufmax, ip, junk);
      assert r in rs && NameSurvives(r, bufmax);
      assert ItemsOf(rs)[0] == ItemOf(r) && ItemsOf(rs)[1..] == ItemsOf(rest);
      assert WithSize(rs, junk)[0] == Record(r.path, junk) && WithSize(rs, junk)[1..] == WithSize(rest, junk);
    }
  }

  /** A printed list of surviving names is stored entry by entry, under the sender's
      address, and every entry with what the record variable held from the start. */
  lemma SurvivorsAreStored(rs: seq<Record>, bufmax: nat, ip: string, junk: nat)
    requires 16 <= bufmax && Paths(rs) && AllNamesSurvive(rs, bufmax)
    ensures Stored(Items(Encode(rs), bufmax), ip, junk) == EntriesOf(WithSize(rs, junk), ip)
  {
    hide Items, Encode, Stored, EntriesOf, Paths, ToInt32;
    EncodedIsRead(rs, bufmax);
    StoredWithSize(rs, bufmax, ip, junk);
  }

  /** The array receives exactly the entries one would expect if and only if every
      name survives and every size is what the record variable held from the start. */
  lemma EntriesArriveIff(rs: seq<Record>, bufmax: nat, ip: string, junk: nat)
    requires 16 <= bufmax && Paths(rs)
    ensures Stored(Items(Encode(rs), bufmax), ip, junk) == EntriesOf(rs, ip)
      <==> AllNamesSurvive(rs, bufmax) && forall r :: r in rs ==> r.size == junk
  {
    hide Items, Encode, ItemsOf, Stored, EntriesOf, Names, PathsOf, Paths;
    NamesArriveIff(rs, bufmax, ip, junk);
    NamesOfEntries(rs, ip);
    if AllNamesSurvive(rs, bufmax) {
      SurvivorsAreStored(rs, bufmax, ip, junk);
      SameEntriesIff(rs, ip, junk);
    }
  }

  // ----- from the tree to the array

  /** Names that a file system can have. */
  ghost predicate CleanTree(d: Dir) {
    forall r :: Listed(d, "", r) ==> NUL !in r.path
  }

  /** The new entries carry the paths of the walk if and only if every name survives,
      and are the expected entries if and only if, besides, every size is what the
      record variable held from the start. */
  ghost predicate SharedAsFarAsPossible(rs: seq<Record>, added: seq<FlEntry>, bufmax: nat, ip: string, junk: nat) {
    && (Names(added) == PathsOf(rs) <==> AllNamesSurvive(rs, bufmax))
    && (added == EntriesOf(rs, ip) <==> AllNamesSurvive(rs, bufmax) && forall r :: r in rs ==> r.size == junk)
  }

  lemma TreeIsShared(d: Dir, bufmax: nat, ip: string, junk: nat)
    requires 16 <= bufmax && CleanTree(d)
    ensures var rs := WalkDir(d, "").records;
      SharedAsFarAsPossible(rs, Stored(Items(Encode(rs), bufmax), ip, junk), bufmax, ip, junk)
  {
    hide Items, Encode, Stored, EntriesOf, Names, PathsOf, Paths, AllNamesSurvive;
    var rs := WalkDir(d, "").records;
    WalkedPaths(d, "");
    NamesArriveIff(rs, bufmax, ip, junk);
    EntriesArriveIff(rs, bufmax, ip, junk);
  }

  /** The child of client_sendlistAction prints the tree, the child of filelistAction
      reads it, over a connection that does not fail. The array grows by what stands
      in the bytes left over in the buffer and those printed; from a fresh buffer and
      with room for all, the new entries are those of the tree as far as can be. */
  method ShareTree(d: Dir, combuf: Buffer, comline: Buffer, list: ItemArray<FlEntry>,
                   ip: string, junk: nat, interrupts: nat)
    returns (sent: int, received: int)
    requires combuf.Valid() && comline.Valid() && list.Valid() && list.shared
    requires combuf != comline && combuf.buf != comline.buf && combuf.buf.Length == comline.buf.Length
    modifies combuf, combuf.buf, comline, comline.buf, list, list.mem
    ensures list.Valid() && sent == if Walkable(d) then 1 else -1
    ensures var all := Stored(Items(old(combuf.Content()) + Encode(WalkDir(d, "").records), combuf.buf.Length), ip, junk);
      && received == (if old(RoomFor(list, |all|)) then 1 else -1)
      && (received == 1 ==> list.Items() == old(list.Items()) + all)
    ensures received == 1 && old(combuf.Content()) == "" && 16 <= combuf.buf.Length && CleanTree(d) ==>
      && |old(list.Items())| <= |list.Items()|
      && SharedAsFarAsPossible(WalkDir(d, "").records, list.Items()[|old(list.Items())|..], combuf.buf.Length, ip, junk)
  {
    hide WalkDir, Walkable, Encode, Items, Stored, Listed, RoomFor, SharedAsFarAsPossible, CleanTree, ItemArray.Valid;
    ghost var rs, bufmax := WalkDir(d, "").records, combuf.buf.Length;
    ghost var before, ahead := list.Items(), combuf.Content() + Encode(rs);
    if 16 <= bufmax && CleanTree(d) {
      TreeIsShared(d, bufmax, ip, junk);
    }
    var fd := new Sink(0, true);
    sent := ParseDirToFD(fd, d, "");
    assert fd.written == Encode(rs);
    var ch := new Channel(fd.written, interrupts, false);
    assert Ahead(ch, combuf) == ahead;
    received := RecvFileList(ch, combuf, comline, list, ip, junk);
    ghost var all := Stored(Items(ahead, bufmax), ip, junk);
    assert (before + all)[|before|..] == all;
    assert "" + Encode(rs) == Encode(rs);
  }
}
