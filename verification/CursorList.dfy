/**
 * The singly linked list between two sentinels whose last visited position is
 * cached in a cursor (cutil/list.c).  Positions are numbered from 1; position 0
 * is the front sentinel and position size + 1 the back sentinel.
 *
 * `hops` is a ghost counter of the links followed by positional access.
 */
module CursorList {
  import opened Wrappers

  class Node<T> {
    const data: Option<T>       // None stands for the NULL of a sentinel
    const isSentinel: bool
    var next: Node?<T>

    constructor (data: Option<T>, isSentinel: bool)
      ensures this.data == data && this.isSentinel == isSentinel && next == null
    {
      this.data, this.isSentinel, this.next := data, isSentinel, null;
    }
  }

  // What list_remove_value leaves: the element after a removed one is kept
  // without being compared.
  function RemoveSkip<T(==)>(s: seq<T>, v: T): seq<T> {
    if s == [] then []
    else if s[0] != v then [s[0]] + RemoveSkip(s[1..], v)
    else if |s| == 1 then []
    else [s[1]] + RemoveSkip(s[2..], v)
  }

  function Without<T(==)>(s: seq<T>, v: T): seq<T> {
    if s == [] then []
    else (if s[0] == v then [] else [s[0]]) + Without(s[1..], v)
  }

  predicate PairAt<T(==)>(s: seq<T>, i: nat, v: T)
    requires i + 1 < |s|
  {
    s[i] == v && s[i + 1] == v
  }

  predicate NoAdjacent<T(==)>(s: seq<T>, v: T) {
    forall i :: 0 <= i < |s| - 1 ==> !PairAt(s, i, v)
  }

  lemma NoAdjacentTail<T>(s: seq<T>, v: T)
    requires |s| >= 2
    ensures NoAdjacent(s, v) <==> !PairAt(s, 0, v) && NoAdjacent(s[1..], v)
  {
    if NoAdjacent(s, v) {
      forall i | 0 <= i < |s[1..]| - 1
        ensures !PairAt(s[1..], i, v)
      {
        assert !PairAt(s, i + 1, v);
      }
    } else {
      var i :| 0 <= i < |s| - 1 && PairAt(s, i, v);
      assert i > 0 ==> PairAt(s[1..], i - 1, v);
    }
  }

  lemma {:induction false} WithoutMeaning<T>(s: seq<T>, v: T)
    ensures v !in Without(s, v)
    ensures multiset(Without(s, v)) == multiset(s)[v := 0]
  {
    if s != [] {
      WithoutMeaning(s[1..], v);
      assert s == [s[0]] + s[1..];
      assert multiset(s) == multiset{s[0]} + multiset(s[1..]);
    }
  }

  // Every other element is kept, and parts the list in two that do not affect each
  // other.
  lemma {:induction false} RemoveSkipParts<T>(a: seq<T>, x: T, b: seq<T>, v: T)
    requires x != v
    ensures RemoveSkip(a + [x] + b, v) == RemoveSkip(a, v) + [x] + RemoveSkip(b, v)
    decreases |a|
  {
    var s := a + [x] + b;
    if a == [] {
      assert s[1..] == b;
    } else if a[0] != v {
      assert s[1..] == a[1..] + [x] + b;
      RemoveSkipParts(a[1..], x, b, v);
    } else if |a| == 1 {
      assert s[1] == x && s[2..] == b;
    } else {
      assert s[1] == a[1] && s[2..] == a[2..] + [x] + b;
      RemoveSkipParts(a[2..], x, b, v);
    }
  }

  // Of a run of occurrences every second one is kept.
  lemma {:induction false} RemoveSkipRun<T>(k: nat, v: T)
    ensures RemoveSkip(seq(k, _ => v), v) == seq(k / 2, _ => v)
  {
    var s := seq(k, _ => v);
    if k >= 2 {
      RemoveSkipRun(k - 2, v);
      assert s[2..] == seq(k - 2, _ => v);
      assert [v] + seq(k / 2 - 1, _ => v) == seq(k / 2, _ => v);
    }
  }

  // list_remove_value removes every occurrence exactly when no two occurrences
  // are neighbours; otherwise an occurrence survives.
  lemma {:induction false} RemoveSkipIsFilterIff<T>(s: seq<T>, v: T)
    ensures NoAdjacent(s, v) <==> RemoveSkip(s, v) == Without(s, v)
    ensures NoAdjacent(s, v) <==> v !in RemoveSkip(s, v)
    decreases |s|
  {
    if |s| >= 1 {
      WithoutMeaning(s, v);
      if s[0] != v {
        RemoveSkipIsFilterIff(s[1..], v);
      } else if |s| >= 2 {
        RemoveSkipIsFilterIff(s[2..], v);
        assert s[1..][1..] == s[2..];
      }
      if |s| >= 2 { NoAdjacentTail(s, v); }
      if |s| >= 3 { NoAdjacentTail(s[1..], v); }
    }
  }

  lemma RemoveSkipEnd<T>(c: seq<T>, v: T)
    ensures c[..|c|] + RemoveSkip(c[|c|..], v) == c
  {
  }

  lemma SkipKeep<T>(c: seq<T>, k: nat, v: T)
    requires k < |c| && c[k] != v
    ensures c[..k] + RemoveSkip(c[k..], v) == c[..k + 1] + RemoveSkip(c[k + 1..], v)
  {
    assert c[k..][1..] == c[k + 1..];
    assert c[..k + 1] == c[..k] + [c[k]];
  }

  lemma SkipRemove<T>(c: seq<T>, k: nat, v: T)
    requires k < |c| && c[k] == v
    ensures var d := c[..k] + c[k + 1..];
            c[..k] + RemoveSkip(c[k..], v) == if k == |d| then d else d[..k + 1] + RemoveSkip(d[k + 1..], v)
  {
    var d := c[..k] + c[k + 1..];
    if k < |d| {
      assert c[k..][2..] == d[k + 1..];
      assert d[..k + 1] == c[..k] + [c[k + 1]];
    }
  }

  function MapSeq<T, U>(f: T -> U, s: seq<T>): seq<U> {
    seq(|s|, i requires 0 <= i < |s| => f(s[i]))
  }

  lemma MapSnoc<T, U>(f: T -> U, s: seq<T>, k: nat)
    requires k < |s|
    ensures MapSeq(f, s[..k + 1]) == MapSeq(f, s[..k]) + [f(s[k])]
  {
  }

  class List<T(==)> {
    const front: Node<T>
    var cursor: Node<T>
    var curpos: nat
    var size: nat

    ghost var spine: seq<Node<T>>   // front sentinel, data nodes, back sentinel
    ghost var contents: seq<T>
    ghost var hops: nat
    ghost var Repr: set<object>

    ghost predicate Valid()
      reads this, Repr
      ensures Valid() ==> this in Repr
    {
      && Shape()
      && curpos <= size + 1
      && cursor == spine[curpos]
    }

    // Everything but the cursor.
    ghost predicate Shape()
      reads this, Repr
      ensures Shape() ==> this in Repr
    {
      && this in Repr
      && (forall i :: 0 <= i < |spine| ==> spine[i] in Repr)
      && |contents| == size
      && Labelled(spine, contents)
      && spine[0] == front
      && Linked(spine)
    }

    // The data nodes of s, between its two sentinels, hold c.
    static ghost predicate Labelled(s: seq<Node<T>>, c: seq<T>) {
      && |s| == |c| + 2
      && (forall i :: 0 <= i < |s| ==> s[i].isSentinel == (i == 0 || i == |c| + 1))
      && (forall i :: 0 <= i < |c| ==> s[i + 1].data == Some(c[i]))
      && s[0].data == None && s[|c| + 1].data == None
    }

    static lemma LabelInsert(s: seq<Node<T>>, c: seq<T>, k: nat, tmp: Node<T>, x: T)
      requires Labelled(s, c) && k <= |c| && tmp.data == Some(x) && !tmp.isSentinel
      ensures Labelled(s[..k + 1] + [tmp] + s[k + 1..], c[..k] + [x] + c[k..])
    {
    }

    static lemma LabelRemove(s: seq<Node<T>>, c: seq<T>, k: nat)
      requires Labelled(s, c) && k < |c|
      ensures Labelled(s[..k + 1] + s[k + 2..], c[..k] + c[k + 1..])
    {
    }

    static ghost predicate Linked(s: seq<Node<T>>)
      reads s
    {
      forall i {:trigger s[i].next} :: 0 <= i < |s| ==> s[i].next == if i + 1 < |s| then s[i + 1] else null
    }

    // A chain that ends in null visits no node twice.
    static lemma {:induction false} Injective(s: seq<Node<T>>, i: nat, j: nat)
      requires Linked(s) && i < j < |s|
      ensures s[i] != s[j]
      decreases |s| - j
    {
      if s[i] == s[j] {
        assert s[i].next == s[i + 1];
        if j + 1 < |s| {
          assert s[j].next == s[j + 1];
          Injective(s, i + 1, j + 1);
        }
      }
    }

    static lemma OnlyAt(s: seq<Node<T>>, k: nat)
      requires Linked(s) && k < |s|
      ensures forall i :: 0 <= i < |s| && i != k ==> s[i] != s[k]
    {
      forall i | 0 <= i < |s| && i != k
        ensures s[i] != s[k]
      {
        if i < k { Injective(s, i, k); } else { Injective(s, k, i); }
      }
    }

    // The node reached by following n links from the front sentinel.
    ghost function Walk(n: nat): (node: Node?<T>)
      requires Valid() && n <= size + 1
      reads this, Repr
      ensures node == spine[n]
    {
      if n == 0 then front
      else
        assert spine[n - 1].next == spine[n];
        Walk(n - 1).next
    }

    constructor ()
      ensures Valid() && fresh(Repr)
      ensures contents == [] && hops == 0 && curpos == 0
    {
      var first := new Node(None, true);
      var last := new Node(None, true);
      front, cursor, curpos, size := first, first, 0, 0;
      spine, contents, hops := [first, last], [], 0;
      Repr := {this, first, last};
      new;
      first.next := last;
    }

    // list_get_node: resumes from the cursor when it is not past position n.
    method GetNode(n: nat) returns (node: Node<T>)
      requires Valid() && n <= size + 1
      modifies this`cursor, this`curpos, this`hops
      ensures Valid()
      ensures node == Walk(n) && cursor == node && curpos == n
      ensures hops == old(hops) + if old(curpos) <= n then n - old(curpos) else n
    {
      var k := n;
      node := front;
      if curpos <= k {
        k := k - curpos;
        node := cursor;
      }
      ghost var start := n - k;
      for i := 0 to k
        invariant node == spine[start + i]
        invariant hops == old(hops) + i
      {
        assert spine[start + i].next == spine[start + i + 1];
        node := node.next;
        hops := hops + 1;
      }
      cursor := node;
      curpos := n;
    }

    method Size() returns (n: nat)
      requires Valid()
      ensures n == size == |contents|
    {
      n := size;
    }

    // list_get: NULL at either sentinel.
    method Get(n: nat) returns (r: Option<T>)
      requires Valid() && n <= size + 1
      modifies this`cursor, this`curpos, this`hops
      ensures Valid() && curpos == n
      ensures r == if 1 <= n <= size then Some(contents[n - 1]) else None
      ensures r == Walk(n).data
      ensures hops == old(hops) + if old(curpos) <= n then n - old(curpos) else n
    {
      var node := GetNode(n);
      r := node.data;
    }

    // Link a new data node after spine[k]; the cursor is left alone.
    method LinkAfter(previous: Node<T>, element: T, ghost k: nat)
      requires Shape() && k <= size && previous == spine[k]
      modifies this`size, this`spine, this`contents, this`Repr, previous`next
      ensures Shape()
      ensures contents == old(contents[..k] + [element] + contents[k..])
      ensures |spine| == |old(spine)| + 1 && spine[..k + 1] == old(spine[..k + 1])
              && spine[k + 2..] == old(spine[k + 1..])
      ensures old(Repr) <= Repr && fresh(Repr - old(Repr))
    {
      OnlyAt(spine, k);
      var tmp := new Node(Some(element), false);
      assert spine[k].next == spine[k + 1];
      LabelInsert(spine, contents, k, tmp, element);
      hide Labelled;
      tmp.next := previous.next;
      previous.next := tmp;
      size := size + 1;
      spine := spine[..k + 1] + [tmp] + spine[k + 1..];
      contents := contents[..k] + [element] + contents[k..];
      Repr := Repr + {tmp};
    }

    // list_add: at the front; the cursor keeps its node unless it is the sentinel.
    method Add(element: T)
      requires Valid()
      modifies Repr
      ensures Valid() && fresh(Repr - old(Repr))
      ensures contents == [element] + old(contents)
      ensures hops == old(hops)
      ensures curpos == if old(curpos) == 0 then 0 else old(curpos) + 1
    {
      hide Linked;
      LinkAfter(front, element, 0);
      if curpos != 0 {
        curpos := curpos + 1;
        assert spine[curpos] == spine[2..][curpos - 2];
      } else {
        assert spine[0] == spine[..1][0];
      }
    }

    // list_insert: the new element gets position n.
    method Insert(n: nat, element: T)
      requires Valid() && 1 <= n <= size + 1
      modifies Repr
      ensures Valid() && fresh(Repr - old(Repr))
      ensures contents == old(contents)[..n - 1] + [element] + old(contents)[n - 1..]
      ensures curpos == n - 1
      ensures hops == old(hops) + if old(curpos) <= n - 1 then n - 1 - old(curpos) else n - 1
    {
      hide Linked;
      var previous := GetNode(n - 1);
      LinkAfter(previous, element, n - 1);
      assert spine[n - 1] == spine[..n][n - 1];
    }

    method Append(element: T)
      requires Valid()
      modifies Repr
      ensures Valid() && fresh(Repr - old(Repr))
      ensures contents == old(contents) + [element]
      ensures curpos == old(size)
      ensures hops == old(hops) + if old(curpos) <= old(size) then old(size) - old(curpos) else old(size)
    {
      Insert(size + 1, element);
    }

    // list_remove: the element at position n.
    method Remove(n: nat)
      requires Valid() && 1 <= n <= size
      modifies Repr
      ensures Valid() && Repr == old(Repr)
      ensures contents == old(contents)[..n - 1] + old(contents)[n..]
      ensures curpos == n - 1
    {
      hide Linked;
      var previous := GetNode(n - 1);
      Unlink(previous, n - 1);
    }

    // Unlink the data node after spine[k].
    method Unlink(previous: Node<T>, ghost k: nat)
      requires Shape() && k < size && previous == spine[k]
      modifies this`size, this`spine, this`contents, previous`next
      ensures Shape()
      ensures contents == old(contents[..k] + contents[k + 1..])
      ensures spine == old(spine[..k + 1] + spine[k + 2..])
    {
      OnlyAt(spine, k);
      assert spine[k].next == spine[k + 1] && spine[k + 1].next == spine[k + 2];
      LabelRemove(spine, contents, k);
      hide Labelled;
      var tmp := previous.next;
      previous.next := tmp.next;
      size := size - 1;
      spine := spine[..k + 1] + spine[k + 2..];
      contents := contents[..k] + contents[k + 1..];
    }

    // list_remove_value: after a removal the loop steps over the next element.
    method RemoveValue(value: T)
      requires Valid()
      modifies Repr
      ensures Valid() && Repr == old(Repr)
      ensures contents == RemoveSkip(old(contents), value)
    {
      hide RemoveSkip;
      curpos := 0;
      cursor := front;
      var n := front;
      ghost var k := 0;
      ghost var was := contents;
      while true
        invariant Valid() && k <= size && n == spine[k] && curpos == 0
        invariant Repr == old(Repr)
        invariant RemoveSkip(was, value) == contents[..k] + RemoveSkip(contents[k..], value)
        decreases size - k
      {
        assert spine[k].next == spine[k + 1];
        var next := n.next;
        if !next.isSentinel && next.data == Some(value) {
          SkipRemove(contents, k, value);
          Unlink(n, k);
          assert spine[k].next == spine[k + 1];
        } else if k < size {
          SkipKeep(contents, k, value);
        }
        n := n.next;
        if n.isSentinel {
          assert k == size;
          RemoveSkipEnd(contents, value);
          return;
        }
        k := k + 1;
      }
    }

    // list_append_list; appending a list to itself would never end.
    method AppendList(source: List<T>)
      requires Valid() && source.Valid() && Repr !! source.Repr
      modifies Repr, source`cursor, source`curpos, source`hops
      ensures Valid() && source.Valid() && fresh(Repr - old(Repr))
      ensures contents == old(contents) + source.contents
      ensures source.hops <= old(source.hops) + source.size
      ensures hops <= old(hops) + (if old(curpos) <= old(size) then old(size - curpos) else old(size)) + source.size
    {
      ghost var first := if curpos <= size then size - curpos else size;
      var i := 1;
      hide Valid, Appending;
      StartAppend(source);
      while i <= source.size
        invariant 1 <= i <= source.size + 1 && Repr !! source.Repr && fresh(Repr - old(Repr))
        invariant source.size == old(source.size) && source.contents == old(source.contents)
        invariant Appending(source, i, old(contents), first, old(hops), old(source.hops))
        decreases source.size - i
      {
        AppendStep(source, i, old(contents), first, old(hops), old(source.hops));
        i := i + 1;
      }
      EndAppend(source, old(contents), first, old(hops), old(source.hops));
    }

    // Between two rounds of list_append_list: i - 1 elements of source are
    // appended to `was`, after `first` links to reach the end of this list.
    ghost predicate Appending(source: List<T>, i: nat, was: seq<T>, first: nat, hops0: nat, sourceHops0: nat)
      reads this, Repr, source, source.Repr
    {
      && Valid() && source.Valid() && 1 <= i <= source.size + 1
      && contents == was + source.contents[..i - 1]
      && source.hops <= sourceHops0 + i - 1
      && if i == 1 then hops == hops0 && first == if curpos <= size then size - curpos else size
         else source.curpos == i - 1 && curpos == size - 1 && hops <= hops0 + first + i - 2
    }

    lemma StartAppend(source: List<T>)
      requires Valid() && source.Valid()
      ensures Appending(source, 1, contents, if curpos <= size then size - curpos else size, hops, source.hops)
    {
      assert contents == contents + source.contents[..0];
    }

    lemma EndAppend(source: List<T>, was: seq<T>, first: nat, hops0: nat, sourceHops0: nat)
      requires Appending(source, source.size + 1, was, first, hops0, sourceHops0)
      ensures Valid() && source.Valid() && contents == was + source.contents
      ensures source.hops <= sourceHops0 + source.size && hops <= hops0 + first + source.size
    {
      assert source.contents[..source.size] == source.contents;
    }

    // One round of list_append_list.
    method AppendStep(source: List<T>, i: nat, ghost was: seq<T>, ghost first: nat, ghost hops0: nat,
                      ghost sourceHops0: nat)
      requires i <= source.size && Repr !! source.Repr && Appending(source, i, was, first, hops0, sourceHops0)
      modifies Repr, source`cursor, source`curpos, source`hops
      ensures fresh(Repr - old(Repr)) && source.Repr == old(source.Repr)
      ensures source.size == old(source.size) && source.contents == old(source.contents)
      ensures Appending(source, i + 1, was, first, hops0, sourceHops0)
    {
      hide Linked;
      var e := source.Get(i);
      assert source.contents[..i] == source.contents[..i - 1] + [source.contents[i - 1]];
      Append(e.value);
    }

    // list_copy
    method Copy() returns (copy: List<T>)
      requires Valid()
      modifies this`cursor, this`curpos, this`hops
      ensures Valid() && copy.Valid() && fresh(copy.Repr)
      ensures copy.contents == contents
      ensures hops <= old(hops) + size
    {
      copy := new List();
      copy.AppendList(this);
    }

    // One round of list_map_r.
    method MapStep<U(==)>(ret: List<U>, f: T -> U, i: nat)
      requires Valid() && ret.Valid() && Repr !! ret.Repr
      requires 1 <= i <= size
      modifies this`cursor, this`curpos, this`hops, ret.Repr
      ensures Valid() && ret.Valid() && fresh(ret.Repr - old(ret.Repr))
      ensures ret.contents == old(ret.contents) + [f(contents[i - 1])]
      ensures curpos == i && ret.curpos == old(ret.size)
      ensures hops == old(hops) + if old(curpos) <= i then i - old(curpos) else i
      ensures ret.hops == old(ret.hops)
                          + if old(ret.curpos) <= old(ret.size) then old(ret.size - ret.curpos) else old(ret.size)
    {
      var e := Get(i);
      ret.Append(f(e.value));
    }

    // Between two rounds of list_map_r: i - 1 elements are mapped.
    ghost predicate Mapping<U>(ret: List<U>, f: T -> U, i: nat, hops0: nat)
      reads this, Repr, ret, ret.Repr
    {
      && Valid() && ret.Valid() && 1 <= i <= size + 1
      && ret.contents == MapSeq(f, contents[..i - 1])
      && hops <= hops0 + i - 1
      && ret.hops == (if i <= 2 then 0 else i - 2)
      && (if i == 1 then ret.curpos == 0 else curpos == i - 1 && ret.curpos == i - 2)
    }

    lemma EndMap<U>(ret: List<U>, f: T -> U, hops0: nat)
      requires Mapping(ret, f, size + 1, hops0)
      ensures Valid() && ret.Valid() && ret.contents == MapSeq(f, contents)
      ensures hops <= hops0 + size && ret.hops == if size == 0 then 0 else size - 1
    {
      assert contents[..size] == contents;
    }

    method MapRound<U(==)>(ret: List<U>, f: T -> U, i: nat, ghost hops0: nat)
      requires i <= size && Repr !! ret.Repr && Mapping(ret, f, i, hops0)
      modifies this`cursor, this`curpos, this`hops, ret.Repr
      ensures fresh(ret.Repr - old(ret.Repr)) && Repr == old(Repr) && size == old(size) && contents == old(contents)
      ensures Mapping(ret, f, i + 1, hops0)
    {
      assert ret.size == i - 1;
      hide Linked, MapSeq;
      MapSnoc(f, contents, i - 1);
      MapStep(ret, f, i);
    }

    // list_map_r, with the callback and its argument as one function.
    method MapR<U(==)>(f: T -> U) returns (ret: List<U>)
      requires Valid()
      modifies this`cursor, this`curpos, this`hops
      ensures Valid() && ret.Valid() && fresh(ret.Repr)
      ensures ret.contents == MapSeq(f, contents)
      ensures hops <= old(hops) + size
      ensures ret.hops == if size == 0 then 0 else size - 1
    {
      ret := new List();
      var si := size;
      assert MapSeq(f, contents[..0]) == [];
      assert Mapping(ret, f, 1, hops);
      hide Valid, Mapping, MapSeq;
      var i := 1;
      while i <= si
        invariant 1 <= i <= si + 1 && fresh(ret.Repr) && size == si && contents == old(contents) && Repr == old(Repr)
        invariant Mapping(ret, f, i, old(hops))
      {
        MapRound(ret, f, i, old(hops));
        i := i + 1;
      }
      EndMap(ret, f, old(hops));
    }

    // list_each_r: `trace` is the sequence of arguments the callback receives.
    method EachR() returns (trace: seq<T>)
      requires Valid()
      modifies this`cursor, this`curpos, this`hops
      ensures Valid()
      ensures trace == contents
      ensures hops <= old(hops) + size
    {
      trace := [];
      var si := size;
      var i := 1;
      while i <= si
        invariant Valid()
        invariant 1 <= i <= si + 1
        invariant trace == contents[..i - 1]
        invariant i > 1 ==> curpos == i - 1
        invariant hops <= old(hops) + i - 1
      {
        var e := Get(i);
        trace := trace + [e.value];
        i := i + 1;
      }
    }
  }
}
