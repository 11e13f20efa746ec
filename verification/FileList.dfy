/** The server's reader of a file list. */
module FileList {
  import opened Bytes
  import opened Tokens
  import opened Buffers
  import opened Tokenizer
  import opened Decimal
  import opened Arrays

  /** An entry of the shared list. */
  datatype FlEntry = FlEntry(filename: string, size: nat, ip: string)

  /** A name line and what my_strtol made of the line after it. */
  datatype Item = Item(name: string, parsed: Parsed)

  predicate Accepted(item: Item) {
    item.parsed.errno.NoError? && item.parsed.number >= 0
  }

  ghost function NextLine(v: string, bufmax: nat): (c: Cut)
    requires bufmax > 0
    ensures c.start + c.len <= c.full <= |v|
    ensures c.found ==> 1 <= c.len && c.start + c.len < c.full
  {
    LineEndsClean();
    Search(Window(v, bufmax), LINE_ENDS)
  }

  /** The pairs of lines in the bytes ahead, as far as the buffer takes them. A
      name that no complete line follows is paired with an empty one. */
  ghost function Items(v: string, bufmax: nat): seq<Item>
    requires bufmax > 0
    decreases |v|
  {
    var c := NextLine(v, bufmax);
    if !c.found then []
    else
      var w := v[c.full..];
      var d := NextLine(w, bufmax);
      var size := if d.found then Token(w, d) else "";
      [Item(CString(Token(v, c)), Parse(CString(size)))] + Items(if d.found then w[d.full..] else w, bufmax)
  }

  /** The entries that are stored. The size that was read is not among them: every
      entry carries what the record variable last held. */
  function Stored(items: seq<Item>, ip: string, junk: nat): seq<FlEntry> {
    if items == [] then []
    else if Accepted(items[0]) then [FlEntry(items[0].name, junk, ip)] + Stored(items[1..], ip, junk)
    else Stored(items[1..], ip, items[0].parsed.number % 0x1_0000_0000_0000_0000)
  }

  /** Whether a shared array takes `n` more items. */
  ghost predicate RoomFor<T(0)>(list: ItemArray<T>, n: nat)
    reads list
  {
    n == 0 || list.itemsize * (list.itemcount + n) < list.memsize
  }

  lemma ItemsStep(v: string, bufmax: nat)
    requires bufmax > 0
    ensures var c := NextLine(v, bufmax);
      if !c.found then Items(v, bufmax) == []
      else
        var w := v[c.full..];
        var d := NextLine(w, bufmax);
        && Items(v, bufmax) != []
        && Items(v, bufmax)[0] == Item(CString(Token(v, c)), Parse(CString(if d.found then Token(w, d) else "")))
        && Items(v, bufmax)[1..] == Items(if d.found then w[d.full..] else w, bufmax)
  {
  }

  lemma StoredStep(items: seq<Item>, ip: string, junk: nat)
    ensures Stored(items, ip, junk) ==
      if items == [] then []
      else if Accepted(items[0]) then [FlEntry(items[0].name, junk, ip)] + Stored(items[1..], ip, junk)
      else Stored(items[1..], ip, items[0].parsed.number % 0x1_0000_0000_0000_0000)
  {
  }

  lemma NextStored(before: seq<FlEntry>, all: seq<FlEntry>, k: nat)
    requires k < |all|
    ensures before + all[..k + 1] == before + all[..k] + [all[k]]
  {
  }

  lemma RoomShrinks(itemsize: nat, a: nat, b: nat)
    requires a <= b
    ensures itemsize * a <= itemsize * b
  {
  }

  /** The array holds the first `k` of the entries to store. */
  ghost predicate Holds(list: ItemArray<FlEntry>, before: seq<FlEntry>, all: seq<FlEntry>, k: nat)
    reads list, list.mem
  {
    && list.Valid() && list.shared && k <= |all| && list.Items() == before + all[..k]
    && (k == 0 || list.itemsize * (|before| + k) < list.memsize)
  }

  /** The two lines of one record: 1 if there is one, 0 at the end, -1 if the
      connection failed. */
  method RecvRecord(ch: Channel, combuf: Buffer, comline: Buffer) returns (res: int, name: string, size: int, errno: Errno)
    requires ch.Valid() && combuf.Valid() && comline.Valid()
    requires combuf != comline && combuf.buf != comline.buf && combuf.buf.Length == comline.buf.Length
    modifies ch, combuf, combuf.buf, comline, comline.buf
    ensures ch.Valid() && combuf.Valid() && comline.Valid()
    ensures res in {1, 0, -1} && (res == -1 ==> ch.faulty)
    ensures var items := Items(old(Ahead(ch, combuf)), combuf.buf.Length);
      && (res == 0 ==> items == [])
      && (res == 1 ==>
        && items != [] && items[0] == Item(name, Parsed(size, errno))
        && items[1..] == Items(Ahead(ch, combuf), combuf.buf.Length)
        && |Ahead(ch, combuf)| < |old(Ahead(ch, combuf))|)
  {
    hide Items, Parse, Search;
    name, size, errno := "", 0, NoError;
    LineEndsClean();
    assert ToSet(["\n", "\r\n"]) == LINE_ENDS;
    ItemsStep(Ahead(ch, combuf), combuf.buf.Length);
    res := GetTokenFromStream(ch, combuf, comline, ["\n", "\r\n"]);
    if res != 1 {
      return;
    }
    name := CString(comline.buf[..comline.buflen]);
    comline.Flush();
    var second := GetTokenFromStream(ch, combuf, comline, ["\n", "\r\n"]);
    if second == -1 {
      return -1, name, size, errno;
    }
    size, errno := MyStrtol(CString(comline.buf[..comline.buflen]));
  }

  lemma HoldsNothingYet(list: ItemArray<FlEntry>, all: seq<FlEntry>)
    requires list.Valid() && list.shared
    ensures Holds(list, list.Items(), all, 0)
  {
  }

  lemma HoldsSoMany(list: ItemArray<FlEntry>, before: seq<FlEntry>, all: seq<FlEntry>, k: nat)
    requires Holds(list, before, all, k)
    ensures list.Valid() && list.itemcount == |before| + k && list.Items() == before + all[..k]
    ensures k == |all| ==> list.Items() == before + all
    ensures k == |all| > 0 ==> list.itemsize * (|before| + |all|) < list.memsize
  {
    assert all[..|all|] == all;
  }

  /** The locked append of one entry: refused exactly if there is no room for all. */
  method StoreRecord(list: ItemArray<FlEntry>, file: FlEntry,
                     ghost before: seq<FlEntry>, ghost all: seq<FlEntry>, ghost k: nat)
    returns (ok: bool)
    requires Holds(list, before, all, k) && k < |all| && all[k] == file
    modifies list, list.mem
    ensures list.mem == old(list.mem) && list.memsize == old(list.memsize)
    ensures if ok then Holds(list, before, all, k + 1)
      else Holds(list, before, all, k) && list.memsize <= list.itemsize * (|before| + |all|)
  {
    hide Sound, AfterAdd, NeedsGrowth, ItemArray.Valid, ItemArray.Full;
    ok := list.AddItem(file);
    if ok {
      NextStored(before, all, k);
    } else {
      RoomShrinks(list.itemsize, |before| + k + 1, |before| + |all|);
    }
  }

  /** recvFileList, as one process sees it. The child that runs it starts with what
      its parent's last read left in the buffer. On a connection that does not fail
      it returns 1 exactly if the shared array has room for all entries, and stores
      them in order; otherwise it has stored as many as fit. */
  method RecvFileList(ch: Channel, combuf: Buffer, comline: Buffer, list: ItemArray<FlEntry>, ip: string, junk: nat)
    returns (r: int)
    requires ch.Valid() && combuf.Valid() && comline.Valid() && list.Valid() && list.shared
    requires combuf != comline && combuf.buf != comline.buf && combuf.buf.Length == comline.buf.Length
    modifies ch, combuf, combuf.buf, comline, comline.buf, list, list.mem
    ensures list.Valid() && (r == 1 || r == -1)
    ensures var all := Stored(Items(old(Ahead(ch, combuf)), combuf.buf.Length), ip, junk);
      && (!ch.faulty ==> (r == 1 <==> old(RoomFor(list, |all|))))
      && (r == 1 ==> list.Items() == old(list.Items()) + all)
      && var stored := list.itemcount - old(list.itemcount);
        0 <= stored <= |all| && list.Items() == old(list.Items()) + all[..stored]
  {
    hide Items, Stored, ItemArray.Valid, Holds;
    ghost var bufmax := combuf.buf.Length;
    ghost var before, all := list.Items(), Stored(Items(Ahead(ch, combuf), bufmax), ip, junk);
    ghost var k := 0;
    var file := FlEntry("", junk, ip);
    HoldsNothingYet(list, all);
    while true
      invariant ch.Valid() && combuf.Valid() && comline.Valid()
      invariant Holds(list, before, all, k) && list.mem == old(list.mem) && list.memsize == old(list.memsize)
      invariant k <= |all| && all[k..] == Stored(Items(Ahead(ch, combuf), bufmax), ip, file.size) && file.ip == ip
      decreases |Ahead(ch, combuf)|
    {
      HoldsSoMany(list, before, all, k);
      StoredStep(Items(Ahead(ch, combuf), bufmax), ip, file.size);
      var res, name, size, errno := RecvRecord(ch, combuf, comline);
      if res == 0 {
        break;
      }
      if res == -1 {
        return -1;
      }
      file := file.(filename := name);
      if !errno.NoError? || size < 0 {
        file := file.(size := size % 0x1_0000_0000_0000_0000);
        continue;
      }
      assert all[k] == all[k..][0] && all[k + 1..] == all[k..][1..];
      var ok := StoreRecord(list, file, before, all, k);
      if !ok {
        HoldsSoMany(list, before, all, k);
        return -1;
      }
      k := k + 1;
    }
    return 1;
  }
}
