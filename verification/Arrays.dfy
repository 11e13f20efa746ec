/** The growable array of fixed-size items, and its fixed shared-memory variant. */
module Arrays {
  import opened Bytes

  // ----- the bookkeeping of sizes, in bytes

  /** `memsize` is what the array believes it has, `alloc` what it really has. */
  datatype Sizes = Sizes(memsize: nat, alloc: nat, itemcount: nat)

  predicate NeedsGrowth(z: Sizes, itemsize: nat) {
    z.memsize <= itemsize * (z.itemcount + 1)
  }

  /** The sizes after addArrayItem on a heap array. */
  function AfterAdd(z: Sizes, itemsize: nat): Sizes {
    if NeedsGrowth(z, itemsize) then
      Sizes(z.memsize + itemsize * 10, itemsize * (z.itemcount + 10), z.itemcount + 1)
    else z.(itemcount := z.itemcount + 1)
  }

  /** The belief exceeds the truth by at most one item, and only when the truth is
      a whole number of items; all items lie inside the allocation. */
  ghost predicate Sound(z: Sizes, itemsize: nat) {
    && (z.memsize <= z.alloc
        || (z.memsize <= z.alloc + itemsize && exists k: nat :: z.alloc == itemsize * k))
    && itemsize * z.itemcount <= z.alloc
  }

  /** The item an add writes lies inside the allocation. */
  lemma AddStaysInside(z: Sizes, itemsize: nat)
    requires itemsize > 0 && Sound(z, itemsize)
    ensures Sound(AfterAdd(z, itemsize), itemsize)
    ensures !NeedsGrowth(z, itemsize) ==> itemsize * (z.itemcount + 1) <= z.alloc
  {
    var c := z.itemcount;
    if NeedsGrowth(z, itemsize) {
      assert itemsize * (c + 1) + itemsize * 10 == itemsize * (c + 10) + itemsize;
      assert itemsize * (c + 1) <= itemsize * (c + 10);
    } else if z.memsize > z.alloc {
      var k: nat :| z.alloc == itemsize * k;
      assert itemsize * (c + 1) < itemsize * k + itemsize == itemsize * (k + 1);
      MulLess(itemsize, c + 1, k + 1);
      assert itemsize * (c + 1) <= itemsize * k;
    }
  }

  lemma MulLess(m: nat, a: nat, b: nat)
    requires m * a < m * b
    ensures a < b && m * (a + 1) <= m * b
  {
  }

  /** One step in the life of a heap array. */
  datatype Op = Add | Remove

  function Apply(z: Sizes, itemsize: nat, ops: seq<Op>): Sizes
    decreases |ops|
  {
    if ops == [] then z
    else if ops[0].Add? then Apply(AfterAdd(z, itemsize), itemsize, ops[1..])
    else if z.itemcount > 0 then Apply(z.(itemcount := z.itemcount - 1), itemsize, ops[1..])
    else Apply(z, itemsize, ops[1..])
  }

  /** Over every sequence of adds and valid removes the drift of `memsize` stays
      within one item: it never accumulates. */
  lemma {:induction false} DriftNeverAccumulates(z: Sizes, itemsize: nat, ops: seq<Op>)
    requires itemsize > 0 && Sound(z, itemsize)
    ensures var y := Apply(z, itemsize, ops);
      Sound(y, itemsize) && y.memsize <= y.alloc + itemsize
    decreases |ops|
  {
    if ops != [] {
      if ops[0].Add? {
        AddStaysInside(z, itemsize);
        DriftNeverAccumulates(AfterAdd(z, itemsize), itemsize, ops[1..]);
      } else if z.itemcount > 0 {
        assert itemsize * (z.itemcount - 1) <= itemsize * z.itemcount;
        DriftNeverAccumulates(z.(itemcount := z.itemcount - 1), itemsize, ops[1..]);
      } else {
        DriftNeverAccumulates(z, itemsize, ops[1..]);
      }
    }
  }

  /** The bound is tight: an array that starts empty has the full drift once its
      second growth is done. */
  lemma DriftIsReached(itemsize: nat)
    requires itemsize > 0
    ensures var y := Apply(Sizes(0, 0, 0), itemsize, seq(10, _ => Add));
      y.memsize == y.alloc + itemsize
  {
    AddsWithoutGrowth(Sizes(10 * itemsize, 10 * itemsize, 1), itemsize, 8);
    var ops := seq(10, _ => Add);
    assert ops[1..] == seq(8, _ => Add) + [Add];
    ApplyAppend(Sizes(10 * itemsize, 10 * itemsize, 1), itemsize, seq(8, _ => Add), [Add]);
    assert [Add][1..] == [];
    assert AfterAdd(Sizes(0, 0, 0), itemsize) == Sizes(10 * itemsize, 10 * itemsize, 1);
  }

  lemma {:induction false} ApplyAppend(z: Sizes, itemsize: nat, a: seq<Op>, b: seq<Op>)
    ensures Apply(z, itemsize, a + b) == Apply(Apply(z, itemsize, a), itemsize, b)
    decreases |a|
  {
    if a == [] {
      assert a + b == b;
    } else {
      assert (a + b)[0] == a[0] && (a + b)[1..] == a[1..] + b;
      var y := if a[0].Add? then AfterAdd(z, itemsize)
        else if z.itemcount > 0 then z.(itemcount := z.itemcount - 1) else z;
      ApplyAppend(y, itemsize, a[1..], b);
    }
  }

  lemma {:induction false} AddsWithoutGrowth(z: Sizes, itemsize: nat, n: nat)
    requires itemsize > 0 && itemsize * (z.itemcount + n) < z.memsize
    ensures Apply(z, itemsize, seq(n, _ => Add)) == z.(itemcount := z.itemcount + n)
    decreases n
  {
    if n > 0 {
      var ops := seq(n, _ => Add);
      assert ops[1..] == seq(n - 1, _ => Add);
      assert itemsize * (z.itemcount + 1) <= itemsize * (z.itemcount + n);
      AddsWithoutGrowth(z.(itemcount := z.itemcount + 1), itemsize, n - 1);
    }
  }

  // ----- the array itself

  /** remArrayItem on the items: the last one takes the place of the removed. */
  function WithoutAt<T>(s: seq<T>, num: nat): (r: seq<T>)
    requires num < |s|
    ensures |r| == |s| - 1
  {
    s[num := s[|s| - 1]][..|s| - 1]
  }

  /** Nothing but the removed item is lost. */
  lemma WithoutAtKeepsOthers<T>(s: seq<T>, num: nat)
    requires num < |s|
    ensures multiset(WithoutAt(s, num)) == multiset(s) - multiset{s[num]}
  {
    var last := |s| - 1;
    assert s == s[..last] + [s[last]];
    if num < last {
      assert s[..last] == s[..num] + [s[num]] + s[num + 1..last];
      assert WithoutAt(s, num) == s[..num] + [s[last]] + s[num + 1..last];
    } else {
      assert WithoutAt(s, num) == s[..last];
    }
  }

  class ItemArray<T(0)> {
    var memsize: nat
    const itemsize: nat
    var itemcount: nat
    var alloc: nat            // bytes allocated behind the header
    var mem: array<T>         // the whole item slots in them
    const shared: bool        // a shared memory segment, which cannot grow

    ghost function Z(): Sizes
      reads this
    {
      Sizes(memsize, alloc, itemcount)
    }

    ghost predicate Valid()
      reads this, mem
    {
      && itemsize > 0
      && Sound(Z(), itemsize)
      && itemsize * mem.Length <= alloc < itemsize * (mem.Length + 1)
      && itemcount <= mem.Length
      && (shared ==> memsize == alloc)
    }

    ghost function Items(): (s: seq<T>)
      requires Valid()
      reads this, mem
      ensures |s| == itemcount
    {
      mem[..itemcount]
    }

    /** Whether a shared array takes another item: the comparison is strict, so
        the last slot stays unused. */
    predicate Full()
      reads this
    {
      shared && NeedsGrowth(Sizes(memsize, alloc, itemcount), itemsize)
    }

    /** initArray */
    constructor (itemsize: nat, initialSize: nat, shared: bool)
      requires itemsize > 0
      ensures Valid() && Items() == [] && fresh(mem)
      ensures memsize == alloc == initialSize && this.shared == shared && this.itemsize == itemsize
    {
      this.itemsize, this.shared := itemsize, shared;
      memsize, alloc, itemcount := initialSize, initialSize, 0;
      mem := new T[initialSize / itemsize];
      DivBounds(initialSize, itemsize);
    }

    /** addArrayItem. A heap array grows; a full shared one refuses. */
    method AddItem(item: T) returns (ok: bool)
      requires Valid()
      modifies this, mem
      ensures Valid() && (mem == old(mem) || fresh(mem))
      ensures ok == !old(Full())
      ensures Items() == if ok then old(Items()) + [item] else old(Items())
      ensures Z() == if ok then AfterAdd(old(Z()), itemsize) else old(Z())
      ensures shared ==>
        && mem == old(mem) && memsize == old(memsize)
        && (ok <==> itemsize * (old(itemcount) + 1) < memsize)
    {
      AddStaysInside(Z(), itemsize);
      if memsize <= itemsize * (itemcount + 1) {
        if !shared {
          var newmem := new T[itemcount + 10];
          forall k | 0 <= k < itemcount {
            newmem[k] := mem[k];
          }
          mem := newmem;
          alloc := itemsize * (itemcount + 10);
          memsize := memsize + itemsize * 10;
          assert itemsize * (itemcount + 10) < itemsize * (itemcount + 11);
        } else {
          return false;
        }
      } else {
        assert itemsize * (itemcount + 1) < itemsize * (mem.Length + 1);
        MulLess(itemsize, itemcount + 1, mem.Length + 1);
      }
      mem[itemcount] := item;
      itemcount := itemcount + 1;
      return true;
    }

    /** remArrayItem: -1 if there is no such item. */
    method RemoveItem(num: nat) returns (r: int)
      requires Valid() && itemcount > 0
      modifies this, mem
      ensures Valid() && mem == old(mem)
      ensures r == if num < old(itemcount) then 1 else -1
      ensures Items() == if r == 1 then WithoutAt(old(Items()), num) else old(Items())
    {
      if num > itemcount - 1 {
        return -1;
      }
      mem[num] := mem[itemcount - 1];
      itemcount := itemcount - 1;
      assert itemsize * itemcount <= itemsize * (itemcount + 1);
      return 1;
    }

    /** getArrayItem */
    method GetItem(num: nat) returns (item: Option<T>)
      requires Valid()
      ensures item == if num < itemcount then Some(Items()[num]) else None
    {
      if itemcount == 0 || num > itemcount - 1 {
        return None;
      }
      return Some(mem[num]);
    }

    /** iterateArray: the cursor moves on even past the end. */
    method Iterate(i: nat) returns (item: Option<T>, next: nat)
      requires Valid()
      ensures item == if i < itemcount then Some(Items()[i]) else None
      ensures next == i + 1
    {
      item := GetItem(i);
      next := i + 1;
    }
  }

  lemma DivBounds(n: nat, m: nat)
    requires m > 0
    ensures m * (n / m) <= n < m * (n / m + 1)
  {
  }
}
