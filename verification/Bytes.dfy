/** Byte strings. A byte is modelled as a `char`; nothing below depends on how
    many different bytes there are. */
module Bytes {
  const NUL := '\0'
  const CR := '\r'
  const LF := '\n'
  const BLANK := ' '
  const TAB := '\t'

  datatype Option<+T> = None | Some(value: T)

  /** What a C function sees that is handed the address of `s`: everything before
      the first NUL. */
  function CString(s: string): (r: string)
    ensures NUL !in r
    ensures r <= s && (|r| < |s| ==> s[|r|] == NUL)
  {
    if s == "" || s[0] == NUL then "" else [s[0]] + CString(s[1..])
  }

  lemma CStringOfClean(s: string)
    requires NUL !in s
    ensures CString(s) == s
  {
  }

  lemma {:induction false} CStringUpTo(s: string, tail: string)
    requires NUL !in s
    ensures CString(s + "\0" + tail) == s
  {
    if s != "" {
      CStringUpTo(s[1..], tail);
      assert (s + "\0" + tail)[1..] == s[1..] + "\0" + tail;
    }
  }

  predicate EndsWith(s: string, c: char) {
    s != "" && s[|s| - 1] == c
  }

  /** Position of the first `c`, or the length of `s` when there is none. */
  function IndexOf(s: string, c: char): (k: nat)
    ensures k <= |s|
    ensures c !in s[..k]
    ensures k < |s| ==> s[k] == c
    ensures k == |s| <==> c !in s
  {
    if s == "" || s[0] == c then 0
    else
      var k := 1 + IndexOf(s[1..], c);
      assert s[..k] == [s[0]] + s[1..][..k - 1];
      assert s == [s[0]] + s[1..];
      k
  }

  lemma IndexOfUnique(s: string, c: char, k: nat)
    requires k < |s| && s[k] == c && c !in s[..k]
    ensures IndexOf(s, c) == k
  {
  }

  ghost function ToSet<T(!new)>(xs: seq<T>): (r: set<T>)
    ensures forall x :: x in r <==> x in xs
  {
    set x | x in xs
  }

  function Min(a: nat, b: nat): (r: nat)
    ensures r <= a && r <= b && (r == a || r == b)
  {
    if a <= b then a else b
  }
}
