/** The round trip of a file list: printed by the client, read by the server. */
module Transfer {
  import opened Bytes
  import opened Tokens
  import opened Lines
  import opened Tokenizer
  import opened Decimal
  import opened Directory
  import opened FileList

  /** What the server understood: the accepted items, with the sizes it parsed. */
  function Received(items: seq<Item>): seq<Record> {
    if items == [] then []
    else
      (if Accepted(items[0]) then [Record(items[0].name, items[0].parsed.number)] else [])
      + Received(items[1..])
  }

  /** Every line of the list fits the buffer: a number line always does. */
  ghost predicate FitsBuffer(rs: seq<Record>, bufmax: nat) {
    16 <= bufmax && forall r :: r in rs ==> |r.path| + 2 <= bufmax
  }

  /** Paths as file systems and path_join make them: no NUL, and not blank even
      without a trailing carriage return. */
  ghost predicate Paths(rs: seq<Record>) {
    forall r :: r in rs ==> NUL !in r.path && Chomp(r.path) != ""
  }

  ghost predicate OneLiners(rs: seq<Record>) {
    forall r :: r in rs ==> LF !in r.path
  }

  lemma NextLineOf(line: string, rest: string, bufmax: nat)
    requires LF !in line && Chomp(line) != "" && |line| + 2 <= bufmax
    ensures var v := line + "\n" + rest; var c := NextLine(v, bufmax);
      c == Cut(true, 0, |Chomp(line)|, |line| + 1) && Token(v, c) == Chomp(line) && v[c.full..] == rest
  {
    var v := line + "\n" + rest;
    var w := Window(v, bufmax);
    assert w[|line|] == v[|line|] == LF;
    assert w[..|line|] == v[..|line|] == line;
    IndexOfUnique(w, LF, |line|);
    FirstLineFound(w);
    assert Token(v, NextLine(v, bufmax)) == line[..|Chomp(line)|];
  }

  function ItemOf(r: Record): Item {
    Item(Chomp(r.path), Parsed(ToInt32(r.size), NoError))
  }

  function ItemsOf(rs: seq<Record>): seq<Item> {
    if rs == [] then [] else [ItemOf(rs[0])] + ItemsOf(rs[1..])
  }

  /** The first record of an encoded list is read back. */
  lemma FirstRecordRead(r: Record, rest: string, bufmax: nat)
    requires FitsBuffer([r], bufmax) && Paths([r]) && LF !in r.path
    ensures var v := r.path + "\n" + Print(ToInt32(r.size)) + "\n" + rest;
      Items(v, bufmax) == [ItemOf(r)] + Items(rest, bufmax)
  {
    hide Items, Print, ToInt32, Parse, Chomp, NextLine, Digits, CString;
    var number := Print(ToInt32(r.size));
    var v := r.path + "\n" + number + "\n" + rest;
    var w := number + "\n" + rest;
    assert r in [r];
    assert v == r.path + "\n" + w;
    NextLineOf(r.path, w, bufmax);
    PrintedIsClean(ToInt32(r.size));
    PrintIsShort(ToInt32(r.size));
    assert Chomp(number) == number by {
      ChompNothing(number);
    }
    NextLineOf(number, rest, bufmax);
    ItemsStep(v, bufmax);
    ParsePrint(ToInt32(r.size));
    ChompKeepsClean(r.path);
    CStringOfClean(Chomp(r.path));
  }

  lemma ChompNothing(s: string)
    requires !EndsWith(s, CR)
    ensures Chomp(s) == s
  {
  }

  lemma ChompKeepsClean(s: string)
    requires NUL !in s
    ensures NUL !in Chomp(s)
  {
  }

  /** A list whose paths are single lines is read record by record: a trailing
      carriage return of the path is lost, and the size is what is left of it in
      an int. */
  lemma {:induction false} EncodedIsRead(rs: seq<Record>, bufmax: nat)
    requires FitsBuffer(rs, bufmax) && Paths(rs) && OneLiners(rs)
    ensures Items(Encode(rs), bufmax) == ItemsOf(rs)
  {
    hide Print, ToInt32, Chomp, Paths;
    if rs == [] {
      ItemsOfNothing(bufmax);
    } else {
      var r := rs[0];
      RestIsProper(rs, bufmax);
      EncodedIsRead(rs[1..], bufmax);
      FirstRecordRead(r, Encode(rs[1..]), bufmax);
    }
  }

  lemma ItemsOfNothing(bufmax: nat)
    requires bufmax > 0
    ensures Items("", bufmax) == []
  {
  }

  lemma RestIsProper(rs: seq<Record>, bufmax: nat)
    requires rs != [] && FitsBuffer(rs, bufmax) && Paths(rs) && OneLiners(rs)
    ensures FitsBuffer([rs[0]], bufmax) && Paths([rs[0]]) && LF !in rs[0].path
    ensures FitsBuffer(rs[1..], bufmax) && Paths(rs[1..]) && OneLiners(rs[1..])
    ensures bufmax > 0
  {
  }

  // ----- any bytes at all

  /** The complete lines that a buffer of size `bufmax` lets through. */
  ghost function Arriving(v: string, bufmax: nat): seq<string>
    requires bufmax > 0
  {
    LinesOf(v[..Limit(v, bufmax - 1)])
  }

  lemma ArrivingStep(v: string, bufmax: nat)
    requires bufmax > 0
    ensures var c := NextLine(v, bufmax);
      Arriving(v, bufmax) == if c.found then [Token(v, c)] + Arriving(v[c.full..], bufmax) else []
  {
    hide Search, LinesOf, Limit;
    LineEndsClean();
    var c := NextLine(v, bufmax);
    var w, cap := Window(v, bufmax), bufmax - 1;
    if c.found {
      assert v == w + v[|w|..];
      StableUnderAppend(w, v[|w|..], LINE_ENDS);
      LimitBehindLine(v, cap);
      ResidueBehindLine(v, Limit(v, cap));
    } else {
      NoLineUpToLimit(v, cap);
    }
  }

  /** Lines two by two; a last one without a partner is paired with nothing. */
  function PairUp(lines: seq<string>): seq<Item>
    decreases |lines|
  {
    if lines == [] then []
    else if |lines| == 1 then [Item(CString(lines[0]), Parse(""))]
    else [Item(CString(lines[0]), Parse(CString(lines[1])))] + PairUp(lines[2..])
  }

  lemma EmptyCString()
    ensures CString("") == ""
  {
  }

  /** What recvFileList reads from any bytes whatever: their complete lines, as far
      as the buffer takes them, two by two. */
  lemma {:induction false} ItemsArePairs(v: string, bufmax: nat)
    requires bufmax > 0
    ensures Items(v, bufmax) == PairUp(Arriving(v, bufmax))
    decreases |v|
  {
    hide NextLine, Arriving, Parse, Items, CString, Token;
    var c := NextLine(v, bufmax);
    ItemsStep(v, bufmax);
    ArrivingStep(v, bufmax);
    if c.found {
      var w := v[c.full..];
      var d := NextLine(w, bufmax);
      ArrivingStep(w, bufmax);
      EmptyCString();
      if d.found {
        var x := w[d.full..];
        var lines := Arriving(v, bufmax);
        assert lines[0] == Token(v, c) && lines[1] == Token(w, d) && lines[2..] == Arriving(x, bufmax);
        ItemsArePairs(x, bufmax);
      } else {
        ItemsStep(w, bufmax);
        assert Arriving(v, bufmax) == [Token(v, c)];
      }
      assert Items(v, bufmax) == [Items(v, bufmax)[0]] + Items(v, bufmax)[1..];
    }
  }

  lemma {:induction false} PairsCount(lines: seq<string>)
    ensures |PairUp(lines)| == (|lines| + 1) / 2
    ensures |lines| % 2 == 1 ==>
      PairUp(lines)[|lines| / 2] == Item(CString(lines[|lines| - 1]), Parse(""))
    decreases |lines|
  {
    hide Parse, CString;
    if |lines| > 1 {
      PairsCount(lines[2..]);
    }
  }

  /** The last entry is a phantom, a name without a size line, if and only if an odd
      number of complete lines arrives. */
  lemma PhantomIff(v: string, bufmax: nat)
    requires bufmax > 0
    ensures var n := |Arriving(v, bufmax)|;
      && |Items(v, bufmax)| == (n + 1) / 2
      && (2 * |Items(v, bufmax)| > n <==> n % 2 == 1)
      && (n % 2 == 1 ==> Items(v, bufmax)[n / 2] == Item(CString(Arriving(v, bufmax)[n - 1]), Parsed(0, NoError)))
  {
    hide Arriving, Items, PairUp, CString;
    ItemsArePairs(v, bufmax);
    PairsCount(Arriving(v, bufmax));
    assert Parse("") == Parsed(0, NoError);
  }

  /** A line that my_strtol takes for a size. */
  ghost predicate IsSizeLine(s: string) {
    exists n :: n >= 0 && ReadsAs(s, n)
  }

  lemma AcceptedIff(name: string, s: string)
    ensures Accepted(Item(name, Parse(s))) <==> IsSizeLine(s)
  {
    hide Parse, ReadsAs;
    ParseReads(s, Parse(s).number);
    if n :| n >= 0 && ReadsAs(s, n) {
      ParseReads(s, n);
    }
  }

  lemma {:induction false} PairAt(lines: seq<string>, i: nat)
    requires 2 * i < |lines|
    ensures i < |PairUp(lines)|
    ensures PairUp(lines)[i] ==
      Item(CString(lines[2 * i]), Parse(if 2 * i + 1 < |lines| then CString(lines[2 * i + 1]) else ""))
    decreases i
  {
    hide Parse, CString;
    if i > 0 {
      PairAt(lines[2..], i - 1);
    }
  }

  /** From any bytes: a name is accepted if and only if the line after it, up to its
      first NUL, is white space or a numeral that a long can hold and that is not
      negative as an int, or if there is no such line at all. */
  lemma AcceptedLinesIff(v: string, bufmax: nat, i: nat)
    requires bufmax > 0 && 2 * i < |Arriving(v, bufmax)|
    ensures i < |Items(v, bufmax)|
    ensures var lines := Arriving(v, bufmax);
      && Items(v, bufmax)[i].name == CString(lines[2 * i])
      && (Accepted(Items(v, bufmax)[i]) <==>
          2 * i + 1 == |lines| || IsSizeLine(CString(lines[2 * i + 1])))
  {
    hide Arriving, Items, PairUp, CString, Parse, Accepted;
    var lines := Arriving(v, bufmax);
    ItemsArePairs(v, bufmax);
    PairAt(lines, i);
    var size := if 2 * i + 1 < |lines| then CString(lines[2 * i + 1]) else "";
    AcceptedIff(CString(lines[2 * i]), size);
    assert ReadsAs("", 0);
  }

  // ----- exactly when the list arrives unchanged

  /** What a record needs to survive: a path on one line that does not end in a
      carriage return and fits the buffer with its line feed and the terminator,
      and a size that an int can hold. */
  predicate Survives(r: Record, bufmax: nat) {
    LF !in r.path && !EndsWith(r.path, CR) && |r.path| + 2 <= bufmax && r.size < TWO31
  }

  lemma {:induction false} ReceivedIsShort(items: seq<Item>)
    ensures |Received(items)| <= |items|
  {
    if items != [] {
      ReceivedIsShort(items[1..]);
    }
  }

  lemma {:induction false} ItemsOfLength(rs: seq<Record>)
    ensures |ItemsOf(rs)| == |rs|
  {
    if rs != [] {
      ItemsOfLength(rs[1..]);
    }
  }

  lemma SurvivorKept(r: Record, bufmax: nat)
    requires LF !in r.path && |r.path| + 2 <= bufmax
    ensures Received([ItemOf(r)]) == [r] <==> Survives(r, bufmax)
    ensures |Received([ItemOf(r)])| <= 1
  {
    assert [ItemOf(r)][1..] == [];
    assert Received([ItemOf(r)]) == if Accepted(ItemOf(r)) then [Record(Chomp(r.path), ToInt32(r.size))] else [];
  }

  lemma ReceivedStep(rs: seq<Record>)
    requires rs != []
    ensures Received(ItemsOf(rs)) == Received([ItemOf(rs[0])]) + Received(ItemsOf(rs[1..]))
  {
    hide ItemOf;
    assert [ItemOf(rs[0])][1..] == [] && ItemsOf(rs)[1..] == ItemsOf(rs[1..]);
  }

  ghost predicate AllSurvive(rs: seq<Record>, bufmax: nat) {
    forall r :: r in rs ==> Survives(r, bufmax)
  }

  lemma AllSurviveStep(rs: seq<Record>, bufmax: nat)
    requires rs != []
    ensures AllSurvive(rs, bufmax) <==> Survives(rs[0], bufmax) && AllSurvive(rs[1..], bufmax)
    ensures OneLiners(rs) ==> LF !in rs[0].path && OneLiners(rs[1..])
    ensures FitsBuffer(rs, bufmax) ==> |rs[0].path| + 2 <= bufmax && FitsBuffer(rs[1..], bufmax)
  {
    hide Survives;
    assert forall r :: r in rs <==> r == rs[0] || r in rs[1..];
  }

  lemma {:induction false} SurvivorsOf(rs: seq<Record>, bufmax: nat)
    requires OneLiners(rs) && FitsBuffer(rs, bufmax)
    ensures Received(ItemsOf(rs)) == rs <==> AllSurvive(rs, bufmax)
  {
    if rs != [] {
      hide Survives, ItemOf, AllSurvive, Received, ItemsOf, OneLiners, FitsBuffer;
      var r, rest := rs[0], rs[1..];
      AllSurviveStep(rs, bufmax);
      SurvivorsOf(rest, bufmax);
      SurvivorKept(r, bufmax);
      ReceivedIsShort(ItemsOf(rest));
      ItemsOfLength(rest);
      ReceivedStep(rs);
      assert rs == [r] + rest;
      SplitEqual(Received([ItemOf(r)]), Received(ItemsOf(rest)), r, rest);
    }
  }

  lemma SplitEqual<T>(first: seq<T>, others: seq<T>, r: T, rest: seq<T>)
    requires |first| <= 1 && |others| <= |rest|
    ensures first + others == [r] + rest <==> first == [r] && others == rest
  {
    if first + others == [r] + rest {
      assert |first| == 1 && (first + others)[0] == first[0] && (first + others)[1..] == others;
    }
  }

  /** From any bytes, a name the server reads is one line that fits the buffer. */
  lemma {:induction false} NamesAreOneLiners(v: string, bufmax: nat, r: Record)
    requires bufmax > 0 && r in Received(Items(v, bufmax))
    ensures LF !in r.path && |r.path| + 2 <= bufmax
    decreases |v|
  {
    hide Search, Parse;
    var c := NextLine(v, bufmax);
    ItemsStep(v, bufmax);
    TokenIsOneLine(v, bufmax);
    if r in Received(Items(v, bufmax)[1..]) {
      var w := v[c.full..];
      var d := NextLine(w, bufmax);
      NamesAreOneLiners(if d.found then w[d.full..] else w, bufmax, r);
    }
  }

  lemma TokenIsOneLine(v: string, bufmax: nat)
    requires bufmax > 0 && NextLine(v, bufmax).found
    ensures var name := CString(Token(v, NextLine(v, bufmax)));
      LF !in name && |name| + 2 <= bufmax
  {
    var c := NextLine(v, bufmax);
    var w := Window(v, bufmax);
    LineEndsClean();
    forall k | c.start <= k < c.start + c.len ensures v[k] != LF {
      assert SepAt(w, k, LINE_ENDS) == "";
      LineEndAt(w, k);
    }
  }

  /** The round trip, for every list and any cut of the stream into reads: the
      server has understood exactly what the client walked if and only if every
      record survives. */
  lemma RoundTripIff(rs: seq<Record>, bufmax: nat)
    requires 16 <= bufmax && Paths(rs)
    ensures Received(Items(Encode(rs), bufmax)) == rs <==> AllSurvive(rs, bufmax)
  {
    hide Items, Encode, Received, ItemsOf;
    var got := Received(Items(Encode(rs), bufmax));
    if OneLiners(rs) && FitsBuffer(rs, bufmax) {
      EncodedIsRead(rs, bufmax);
      SurvivorsOf(rs, bufmax);
    } else {
      var bad :| bad in rs && (LF in bad.path || |bad.path| + 2 > bufmax);
      if got == rs {
        NamesAreOneLiners(Encode(rs), bufmax, bad);
      }
    }
  }

  /** The stored entries are the understood records, name by name. */
  lemma {:induction false} StoredAreReceived(items: seq<Item>, ip: string, junk: nat, i: nat)
    ensures |Stored(items, ip, junk)| == |Received(items)|
    ensures i < |Received(items)| ==>
      Stored(items, ip, junk)[i].filename == Received(items)[i].path && Stored(items, ip, junk)[i].ip == ip
    decreases |items|
  {
    if items != [] {
      var n := items[0].parsed.number % 0x1_0000_0000_0000_0000;
      if Accepted(items[0]) {
        StoredAreReceived(items[1..], ip, junk, if i > 0 then i - 1 else 0);
      } else {
        StoredAreReceived(items[1..], ip, n, i);
      }
    }
  }

  // ----- the sizes that are stored

  ghost predicate SizesAgree(stored: seq<FlEntry>, received: seq<Record>) {
    |stored| == |received| && forall i :: 0 <= i < |received| ==> stored[i].size == received[i].size
  }

  /** Every stored entry carries the size that was read for it. */
  ghost predicate SizesRight(items: seq<Item>, ip: string, junk: nat) {
    SizesAgree(Stored(items, ip, junk), Received(items))
  }

  lemma SizesAgreeStep(e: FlEntry, r: Record, stored: seq<FlEntry>, received: seq<Record>)
    ensures SizesAgree([e] + stored, [r] + received) <==> e.size == r.size && SizesAgree(stored, received)
  {
    var es, rs := [e] + stored, [r] + received;
    assert es[0] == e && rs[0] == r;
    assert forall i :: 0 <= i < |stored| ==> stored[i] == es[i + 1];
    assert forall i :: 0 <= i < |received| ==> received[i] == rs[i + 1];
  }

  lemma SizesRightStep(items: seq<Item>, ip: string, junk: nat)
    requires items != []
    ensures SizesRight(items, ip, junk) <==>
      if Accepted(items[0]) then items[0].parsed.number == junk && SizesRight(items[1..], ip, junk)
      else SizesRight(items[1..], ip, items[0].parsed.number % 0x1_0000_0000_0000_0000)
  {
    hide SizesAgree;
    var rest := items[1..];
    if Accepted(items[0]) {
      var e, r := FlEntry(items[0].name, junk, ip), Record(items[0].name, items[0].parsed.number);
      assert Stored(items, ip, junk) == [e] + Stored(rest, ip, junk) && Received(items) == [r] + Received(rest);
      SizesAgreeStep(e, r, Stored(rest, ip, junk), Received(rest));
    } else {
      assert Received(items) == Received(rest);
    }
  }

  /** What the record variable holds when item `i` is stored: the number of the last
      item rejected before, or what it held at the start. */
  function Held(items: seq<Item>, junk: nat, i: nat): nat
    requires i <= |items|
    decreases |items|
  {
    if i == 0 then junk
    else
      Held(items[1..], if Accepted(items[0]) then junk else items[0].parsed.number % 0x1_0000_0000_0000_0000, i - 1)
  }

  /** From any bytes: all stored sizes are right if and only if every accepted number
      happens to be what the record variable still held. */
  lemma {:induction false} SizesRightIff(items: seq<Item>, ip: string, junk: nat)
    ensures SizesRight(items, ip, junk) <==>
      forall i :: 0 <= i < |items| && Accepted(items[i]) ==> items[i].parsed.number == Held(items, junk, i)
    decreases |items|
  {
    hide SizesRight, Accepted;
    if items == [] {
      assert SizesRight(items, ip, junk) by {
        NothingToStore(ip, junk);
      }
    } else {
      var rest := items[1..];
      var junk' := if Accepted(items[0]) then junk else items[0].parsed.number % 0x1_0000_0000_0000_0000;
      SizesRightStep(items, ip, junk);
      SizesRightIff(rest, ip, junk');
      assert forall i :: 0 <= i < |rest| ==> rest[i] == items[i + 1] && Held(rest, junk', i) == Held(items, junk, i + 1);
      assert forall i :: 1 <= i < |items| ==> items[i] == rest[i - 1] && Held(items, junk, i) == Held(rest, junk', i - 1);
    }
  }

  lemma NothingToStore(ip: string, junk: nat)
    ensures SizesRight([], ip, junk)
  {
  }

  /** Record `i` of a printed list gets the right size: it is accepted, no record
      before it was rejected, and its size is what the record variable held. */
  ghost predicate SizeKept(rs: seq<Record>, junk: nat, i: nat)
    requires i < |rs|
  {
    ToInt32(rs[i].size) == junk && forall j :: 0 <= j < i ==> ToInt32(rs[j].size) >= 0
  }

  /** Once a negative number has been rejected, no accepted size is right. */
  lemma {:induction false} AfterRejected(rs: seq<Record>, ip: string, junk: nat)
    requires junk >= TWO32
    ensures SizesRight(ItemsOf(rs), ip, junk) <==> forall i :: 0 <= i < |rs| ==> ToInt32(rs[i].size) < 0
    decreases |rs|
  {
    hide SizesRight, ToInt32, Chomp;
    if rs == [] {
      NothingToStore(ip, junk);
    } else {
      var rest, n := rs[1..], ToInt32(rs[0].size);
      assert ItemsOf(rs)[0] == ItemOf(rs[0]) && ItemsOf(rs)[1..] == ItemsOf(rest);
      SizesRightStep(ItemsOf(rs), ip, junk);
      assert forall i :: 1 <= i < |rs| ==> rs[i] == rest[i - 1];
      assert forall i :: 0 <= i < |rest| ==> rest[i] == rs[i + 1];
      if n < 0 {
        NegativeIsHuge(n);
        AfterRejected(rest, ip, n % 0x1_0000_0000_0000_0000);
      }
    }
  }

  lemma NegativeIsHuge(n: int)
    requires -TWO31 <= n < 0
    ensures n % 0x1_0000_0000_0000_0000 >= TWO32
  {
    assert n % 0x1_0000_0000_0000_0000 == n + 0x1_0000_0000_0000_0000;
  }

  /** For a printed list all stored sizes are right if and only if every record whose
      printed size is not negative gets its own by that accident. */
  lemma {:induction false} PrintedSizesRightIff(rs: seq<Record>, ip: string, junk: nat)
    ensures SizesRight(ItemsOf(rs), ip, junk) <==>
      forall i :: 0 <= i < |rs| && ToInt32(rs[i].size) >= 0 ==> SizeKept(rs, junk, i)
    decreases |rs|
  {
    hide SizesRight, ToInt32, Chomp;
    if rs == [] {
      NothingToStore(ip, junk);
    } else {
      var rest, n := rs[1..], ToInt32(rs[0].size);
      assert ItemsOf(rs)[0] == ItemOf(rs[0]) && ItemsOf(rs)[1..] == ItemsOf(rest);
      SizesRightStep(ItemsOf(rs), ip, junk);
      assert forall i :: 1 <= i < |rs| ==> rs[i] == rest[i - 1];
      assert forall i :: 0 <= i < |rest| ==> rest[i] == rs[i + 1];
      if n < 0 {
        NegativeIsHuge(n);
        AfterRejected(rest, ip, n % 0x1_0000_0000_0000_0000);
        assert forall i :: 1 <= i < |rs| ==> !SizeKept(rs, junk, i);
      } else {
        PrintedSizesRightIff(rest, ip, junk);
        assert forall i :: 0 <= i < |rest| ==> (SizeKept(rest, junk, i) <==> SizeKept(rs, junk, i + 1));
        assert forall i :: 1 <= i < |rs| ==> (SizeKept(rs, junk, i) <==> SizeKept(rest, junk, i - 1));
      }
    }
  }

  /** The input that shows it: one file of one byte, and a record variable that starts
      with anything but 1. */
  lemma SizeIsLost(ip: string, junk: nat)
    requires junk != 1
    ensures !SizesRight(ItemsOf([Record("/a", 1)]), ip, junk)
  {
    PrintedSizesRightIff([Record("/a", 1)], ip, junk);
  }

  /** Two files of different sizes are never both stored with their own. */
  lemma TwoSizesNeverRight(rs: seq<Record>, i: nat, j: nat, ip: string, junk: nat)
    requires i < |rs| && j < |rs|
    requires ToInt32(rs[i].size) >= 0 && ToInt32(rs[j].size) >= 0 && ToInt32(rs[i].size) != ToInt32(rs[j].size)
    ensures !SizesRight(ItemsOf(rs), ip, junk)
  {
    PrintedSizesRightIff(rs, ip, junk);
    assert !(SizeKept(rs, junk, i) && SizeKept(rs, junk, j));
  }

  // ----- the tree as a whole

  /** A walked path always starts with the separator, whatever the names are. */
  lemma {:induction false} PathHasSlash(subdir: string, names: seq<string>)
    requires names != []
    ensures '/' in PathOf(subdir, names)
  {
    assert Join(subdir, names[0])[|subdir|] == '/';
    SlashStays(Join(subdir, names[0]), names[1..]);
  }

  lemma {:induction false} SlashStays(subdir: string, names: seq<string>)
    requires '/' in subdir
    ensures '/' in PathOf(subdir, names)
    decreases |names|
  {
    if names != [] {
      SlashStays(Join(subdir, names[0]), names[1..]);
    }
  }

  lemma WalkedPaths(d: Dir, subdir: string)
    requires forall r :: Listed(d, subdir, r) ==> NUL !in r.path
    ensures Paths(WalkDir(d, subdir).records)
  {
    forall r | r in WalkDir(d, subdir).records ensures NUL !in r.path && Chomp(r.path) != "" {
      WalkedIsListed(d, 0, subdir, r);
      var names :| HasFile(d, names, r.size) && r.path == PathOf(subdir, names);
      PathHasSlash(subdir, names);
    }
  }

  /** After a complete walk the server has understood exactly the visible regular
      files, by path and size, if and only if each of them survives. */
  lemma TreeArrivesIff(d: Dir, bufmax: nat)
    requires WalkDir(d, "").ok && 16 <= bufmax
    requires forall r :: Listed(d, "", r) ==> NUL !in r.path
    ensures Received(Items(Encode(WalkDir(d, "").records), bufmax)) == WalkDir(d, "").records
      <==> forall r :: Listed(d, "", r) ==> Survives(r, bufmax)
  {
    hide Items, Received, Encode, Survives, Paths;
    var rs := WalkDir(d, "").records;
    forall r ensures r in rs <==> Listed(d, "", r) {
      WalkListsExactly(d, "", r);
    }
    WalkedPaths(d, "");
    RoundTripIff(rs, bufmax);
  }
}
