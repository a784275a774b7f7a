/** Reversed sequences: what a list filled with list_add holds. */
module Reversal {
  function Rev<T>(s: seq<T>): (r: seq<T>)
    ensures |r| == |s|
  {
    if s == [] then [] else Rev(s[1..]) + [s[0]]
  }

  lemma {:induction false} RevAt<T>(s: seq<T>, k: nat)
    requires k < |s|
    ensures Rev(s)[k] == s[|s| - 1 - k]
  {
    if k < |s| - 1 {
      RevAt(s[1..], k);
    }
  }

  lemma RevPrepend<T>(x: T, s: seq<T>)
    ensures Rev([x] + s) == Rev(s) + [x]
  {
    assert ([x] + s)[1..] == s;
  }

  lemma {:induction false} RevAppend<T>(s: seq<T>, x: T)
    ensures Rev(s + [x]) == [x] + Rev(s)
  {
    if s == [] {
      assert s + [x] == [x] && [x][1..] == [];
    } else {
      assert (s + [x])[1..] == s[1..] + [x];
      RevAppend(s[1..], x);
    }
  }

  // One piece moves from what is to come to the front of the reversed list.
  lemma RevStep<T>(x: T, s: seq<T>, rest: seq<T>)
    ensures Rev([x] + s) + rest == Rev(s) + ([x] + rest)
  {
    RevPrepend(x, s);
  }

  lemma {:induction false} RevTwice<T>(s: seq<T>)
    ensures Rev(Rev(s)) == s
  {
    forall k | 0 <= k < |s|
      ensures Rev(Rev(s))[k] == s[k]
    {
      RevAt(Rev(s), k);
      RevAt(s, |s| - 1 - k);
    }
  }

  lemma {:induction false} RevMultiset<T>(s: seq<T>)
    ensures multiset(Rev(s)) == multiset(s)
  {
    if s != [] {
      RevMultiset(s[1..]);
      assert s == [s[0]] + s[1..];
    }
  }
}
