/**
 * The chained hash index of cutil/uthash.h.  Every item is on two doubly
 * linked lists at once: the application order (prev, next) and the chain of
 * its bucket (hhPrev, hhNext).
 *
 * An item and the handle embedded in it are one object here.  The table record
 * a non-empty index points to is kept in the index object itself; its fields
 * mean nothing while `head` is null.
 */
module UtHash {
  import opened Bits
  import Sorting = StableSort

  const INITIAL_NUM_BUCKETS_LOG2 := 5
  const BKT_CAPACITY_THRESH := 10

  type U32 = n: nat | n < 0x1_0000_0000

  class Handle<V> {
    const key: string
    const data: V
    const hashv: U32
    var prev: Handle?<V>
    var next: Handle?<V>
    var hhPrev: Handle?<V>
    var hhNext: Handle?<V>

    constructor (key: string, data: V, hashv: U32)
      ensures this.key == key && this.data == data && this.hashv == hashv
    {
      this.key, this.data, this.hashv := key, data, hashv;
      prev, next, hhPrev, hhNext := null, null, null, null;
    }
  }

  // HASH_FCN: any deterministic function from keys to unsigned numbers.
  function HashValue(hash: string -> U32, key: string): U32 {
    hash(key)
  }

  // A doubling of the buckets: the items, and those past the ideal length.
  datatype Growth = Growth(items: nat, nonideal: nat)

  // It has left more than half of the items past the ideal length.
  predicate Ineffective(g: Growth) {
    g.nonideal > g.items / 2
  }

  // The ineffective doublings in a row at the end.
  function Trailing(growths: seq<Growth>): nat {
    if growths == [] || !Ineffective(growths[|growths| - 1]) then 0 else 1 + Trailing(growths[..|growths| - 1])
  }

  predicate TwoInARow(growths: seq<Growth>) {
    exists i :: 0 < i < |growths| && Ineffective(growths[i - 1]) && Ineffective(growths[i])
  }

  datatype Bucket<V> = Bucket(head: Handle?<V>, count: nat, expandMult: nat)

  // HASH_TO_BKT
  function BucketIndex(hashv: nat, numBuckets: nat): nat
    requires numBuckets >= 1
  {
    And(hashv, numBuckets - 1)
  }

  lemma BucketIndexInRange(hashv: nat, numBuckets: nat, k: nat)
    requires numBuckets == Pow2(k)
    ensures BucketIndex(hashv, numBuckets) == hashv % numBuckets < numBuckets
  {
    MaskIsMod(hashv, k);
  }

  // Items past the ideal length, over all buckets.
  function ExcessSum<V>(bs: seq<Bucket<V>>, ideal: nat): nat {
    if bs == [] then 0
    else (if bs[0].count > ideal then bs[0].count - ideal else 0) + ExcessSum(bs[1..], ideal)
  }

  lemma {:induction false} ExcessSumUpdate<V>(bs: seq<Bucket<V>>, b: nat, bk: Bucket<V>, ideal: nat)
    requires b < |bs| && bk.count == bs[b].count + 1
    ensures ExcessSum(bs[b := bk], ideal) == ExcessSum(bs, ideal) + if bk.count > ideal then 1 else 0
  {
    if b > 0 {
      ExcessSumUpdate(bs[1..], b - 1, bk, ideal);
      assert bs[b := bk][1..] == bs[1..][b - 1 := bk];
    } else {
      assert bs[b := bk][1..] == bs[1..];
    }
  }

  lemma {:induction false} ExcessSumOfEmpty<V>(bs: seq<Bucket<V>>, ideal: nat)
    requires forall b :: 0 <= b < |bs| ==> bs[b].count == 0
    ensures ExcessSum(bs, ideal) == 0
  {
    if bs != [] {
      ExcessSumOfEmpty(bs[1..], ideal);
    }
  }

  // The statistics of a distribution over buckets.
  predicate StatsOk<V>(bs: seq<Bucket<V>>, ideal: nat, nonideal: nat) {
    && ideal >= 1
    && nonideal == ExcessSum(bs, ideal)
    && forall b :: 0 <= b < |bs| ==> MultOk(bs[b], ideal)
  }

  ghost predicate AppLinked<V>(s: seq<Handle<V>>)
    reads Members(s)`next, Members(s)`prev
  {
    && (forall i {:trigger s[i].next} :: 0 <= i < |s| ==> s[i].next == if i + 1 < |s| then s[i + 1] else null)
    && (forall i {:trigger s[i].prev} :: 0 <= i < |s| ==> s[i].prev == if i > 0 then s[i - 1] else null)
  }

  ghost predicate ChainLinked<V>(s: seq<Handle<V>>)
    reads Members(s)`hhNext, Members(s)`hhPrev
  {
    && (forall i {:trigger s[i].hhNext} :: 0 <= i < |s| ==> s[i].hhNext == if i + 1 < |s| then s[i + 1] else null)
    && (forall i {:trigger s[i].hhPrev} :: 0 <= i < |s| ==> s[i].hhPrev == if i > 0 then s[i - 1] else null)
  }

  lemma {:induction false} AppInjective<V>(s: seq<Handle<V>>, i: nat, j: nat)
    requires AppLinked(s) && i < j < |s|
    ensures s[i] != s[j]
    decreases |s| - j
  {
    if s[i] == s[j] {
      assert s[i].next == s[i + 1];
      if j + 1 < |s| {
        assert s[j].next == s[j + 1];
        AppInjective(s, i + 1, j + 1);
      }
    }
  }

  lemma {:induction false} ChainInjective<V>(s: seq<Handle<V>>, i: nat, j: nat)
    requires ChainLinked(s) && i < j < |s|
    ensures s[i] != s[j]
    decreases |s| - j
  {
    if s[i] == s[j] {
      assert s[i].hhNext == s[i + 1];
      if j + 1 < |s| {
        assert s[j].hhNext == s[j + 1];
        ChainInjective(s, i + 1, j + 1);
      }
    }
  }

  lemma AppOnlyAt<V>(s: seq<Handle<V>>, k: nat)
    requires AppLinked(s) && k < |s|
    ensures forall i :: 0 <= i < |s| && i != k ==> s[i] != s[k]
  {
    forall i | 0 <= i < |s| && i != k
      ensures s[i] != s[k]
    {
      if i < k { AppInjective(s, i, k); } else { AppInjective(s, k, i); }
    }
  }

  lemma ChainOnlyAt<V>(s: seq<Handle<V>>, k: nat)
    requires ChainLinked(s) && k < |s|
    ensures forall i :: 0 <= i < |s| && i != k ==> s[i] != s[k]
  {
    forall i | 0 <= i < |s| && i != k
      ensures s[i] != s[k]
    {
      if i < k { ChainInjective(s, i, k); } else { ChainInjective(s, k, i); }
    }
  }

  ghost function Members<V>(s: seq<Handle<V>>): set<Handle<V>> {
    set h | h in s
  }

  predicate Injective<V>(s: seq<Handle<V>>) {
    forall i, j :: 0 <= i < j < |s| ==> s[i] != s[j]
  }

  lemma ChainIsInjective<V>(s: seq<Handle<V>>)
    requires ChainLinked(s)
    ensures Injective(s)
  {
    forall i, j | 0 <= i < j < |s|
      ensures s[i] != s[j]
    {
      ChainInjective(s, i, j);
    }
  }

  ghost predicate NextLinked<V>(s: seq<Handle<V>>)
    reads Members(s)`hhNext
  {
    forall i {:trigger s[i].hhNext} :: 0 <= i < |s| ==> s[i].hhNext == if i + 1 < |s| then s[i + 1] else null
  }

  ghost predicate AppNextLinked<V>(s: seq<Handle<V>>)
    reads Members(s)`next
  {
    forall i {:trigger s[i].next} :: 0 <= i < |s| ==> s[i].next == if i + 1 < |s| then s[i + 1] else null
  }

  // One bucket: its count, its head, and its chain linked both ways.
  ghost predicate BucketOk<V>(bk: Bucket<V>, chain: seq<Handle<V>>)
    reads Members(chain)`hhNext, Members(chain)`hhPrev
  {
    && bk.count == |chain|
    && bk.head == (if chain == [] then null else chain[0])
    && ChainLinked(chain)
  }

  // The bucket array holds exactly `items`, each where the mask of its hash
  // puts it.
  ghost predicate Holds<V>(bs: array<Bucket<V>>, chains: seq<seq<Handle<V>>>, items: set<Handle<V>>)
    reads bs, items`hhNext, items`hhPrev
  {
    && bs.Length == |chains| >= 1
    && (forall b :: 0 <= b < bs.Length ==> forall h :: h in chains[b] ==> h in items)
    && (forall b :: 0 <= b < bs.Length ==> forall h :: h in chains[b] ==> BucketIndex(h.hashv, bs.Length) == b)
    && (forall b :: 0 <= b < bs.Length ==> BucketOk(bs[b], chains[b]))
    && (forall h :: h in items ==>
          BucketIndex(h.hashv, bs.Length) < bs.Length && h in chains[BucketIndex(h.hashv, bs.Length)])
  }

  predicate MultOk<V>(bk: Bucket<V>, ideal: nat)
    requires ideal >= 1
  {
    bk.expandMult == if bk.count > ideal then bk.count / ideal else 0
  }

  // Push h in front of a chain whose first node is `first`.
  method LinkFront<V>(first: Handle?<V>, h: Handle<V>, ghost chain: seq<Handle<V>>)
    requires ChainLinked(chain) && h !in chain
    requires first == if chain == [] then null else chain[0]
    modifies h`hhPrev, h`hhNext, Members(chain)`hhPrev
    ensures ChainLinked([h] + chain)
  {
    h.hhNext := first;
    h.hhPrev := null;
    if first != null {
      ChainOnlyAt(chain, 0);
      first.hhPrev := h;
    }
  }

  function DropAt<T>(s: seq<T>, k: nat): seq<T>
    requires k < |s|
  {
    s[..k] + s[k + 1..]
  }

  // HASH_DEL_IN_BKT, apart from the count: `first` is the new chain head.
  method UnlinkChain<V>(bk: Bucket<V>, h: Handle<V>, ghost chain: seq<Handle<V>>, ghost i: nat)
    returns (first: Handle?<V>)
    requires ChainLinked(chain) && i < |chain| && chain[i] == h && bk.head == chain[0]
    modifies Members(chain)`hhPrev, Members(chain)`hhNext
    ensures ChainLinked(DropAt(chain, i))
    ensures first == if |chain| == 1 then null else DropAt(chain, i)[0]
    ensures h !in DropAt(chain, i)
  {
    ChainOnlyAt(chain, i);
    ghost var rest := DropAt(chain, i);
    assert forall j :: 0 <= j < |rest| ==> rest[j] == chain[if j < i then j else j + 1];
    if i > 0 { ChainOnlyAt(chain, i - 1); }
    if i + 1 < |chain| { ChainOnlyAt(chain, i + 1); }
    assert h.hhNext == if i + 1 < |chain| then chain[i + 1] else null;
    assert h.hhPrev == if i > 0 then chain[i - 1] else null;
    first := bk.head;
    if first == h {
      first := h.hhNext;
    }
    if h.hhPrev != null {
      h.hhPrev.hhNext := h.hhNext;
    }
    if h.hhNext != null {
      h.hhNext.hhPrev := h.hhPrev;
    }
  }

  // The neighbours of a deleted item in application order.
  method UnlinkNeighbours<V>(h: Handle<V>, ghost s: seq<Handle<V>>, ghost k: nat)
    requires AppLinked(s) && k < |s| && s[k] == h
    modifies Members(s)`next, Members(s)`prev
    ensures AppLinked(DropAt(s, k)) && h !in DropAt(s, k)
    ensures h.next == old(h.next) && h.prev == old(h.prev)
  {
    ghost var rest := DropAt(s, k);
    assert forall j :: 0 <= j < |rest| ==> rest[j] == s[if j < k then j else j + 1];
    AppOnlyAt(s, k);
    if k > 0 { AppOnlyAt(s, k - 1); }
    if k + 1 < |s| { AppOnlyAt(s, k + 1); }
    assert h.next == if k + 1 < |s| then s[k + 1] else null;
    assert h.prev == if k > 0 then s[k - 1] else null;
    if h.prev != null {
      h.prev.next := h.next;
    }
    if h.next != null {
      h.next.prev := h.prev;
    }
  }

  // One bucket has one item more; the multipliers are as they were.
  predicate Raised<V>(bs: seq<Bucket<V>>, bkt: nat, bs': seq<Bucket<V>>) {
    && |bs'| == |bs|
    && forall b :: 0 <= b < |bs| ==>
         bs'[b].expandMult == bs[b].expandMult && bs'[b].count == bs[b].count + if b == bkt then 1 else 0
  }

  // Push h on its chain; `bk` is the bucket with its count already raised.
  method Push<V>(bs: array<Bucket<V>>, ghost chains: seq<seq<Handle<V>>>, ghost items: set<Handle<V>>,
                 bkt: nat, bk: Bucket<V>, h: Handle<V>)
    returns (ghost chains': seq<seq<Handle<V>>>)
    requires Holds(bs, chains, items) && h !in items
    requires bkt == BucketIndex(h.hashv, bs.Length) < bs.Length
    requires bk.count == bs[bkt].count + 1 && bk.head == bs[bkt].head
    modifies bs, h`hhPrev, h`hhNext, items`hhPrev
    ensures bs[..] == old(bs[..])[bkt := bk.(head := h)]
    ensures Holds(bs, chains', items + {h})
  {
    hide And, BucketIndex;
    ghost var chain := chains[bkt];
    assert BucketOk(bs[bkt], chain);
    LinkFront(bk.head, h, chain);
    bs[bkt] := bk.(head := h);
    chains' := chains[bkt := [h] + chain];
  }

  // HASH_DEL_IN_BKT
  method DelInBkt<V>(bs: array<Bucket<V>>, ghost chains: seq<seq<Handle<V>>>, ghost items: set<Handle<V>>,
                     bkt: nat, h: Handle<V>)
    returns (ghost chains': seq<seq<Handle<V>>>)
    requires Holds(bs, chains, items) && h in items
    requires bkt == BucketIndex(h.hashv, bs.Length)
    modifies bs, items`hhPrev, items`hhNext
    ensures Holds(bs, chains', items - {h})
    ensures Raised(bs[..], bkt, old(bs[..]))
  {
    hide And, BucketIndex, Raised;
    ghost var chain := chains[bkt];
    assert BucketOk(bs[bkt], chain);
    ghost var i: nat :| i < |chain| && chain[i] == h;
    UnlinkInBucket(bs, bkt, h, chain, i);
    assert forall x :: x in chain && x != h ==> x in DropAt(chain, i);
    chains' := chains[bkt := DropAt(chain, i)];
  }

  method UnlinkInBucket<V>(bs: array<Bucket<V>>, bkt: nat, h: Handle<V>, ghost chain: seq<Handle<V>>, ghost i: nat)
    requires bkt < bs.Length && BucketOk(bs[bkt], chain) && i < |chain| && chain[i] == h
    modifies bs, Members(chain)`hhPrev, Members(chain)`hhNext
    ensures bs[..] == old(bs[..])[bkt := bs[bkt]]
    ensures BucketOk(bs[bkt], DropAt(chain, i)) && h !in DropAt(chain, i)
    ensures Raised(bs[..], bkt, old(bs[..]))
  {
    bs[bkt] := bs[bkt].(count := bs[bkt].count - 1);
    var first := UnlinkChain(bs[bkt], h, chain, i);
    bs[bkt] := bs[bkt].(head := first);
  }

  // ----- HASH_SRT over the application order

  // The list built so far by a pass; the last `next` is not yet meaningful.
  ghost predicate OutLinked<V>(out: seq<Handle<V>>)
    reads Members(out)`next, Members(out)`prev
  {
    && (forall i {:trigger out[i].next} :: 0 <= i < |out| - 1 ==> out[i].next == out[i + 1])
    && (forall i {:trigger out[i].prev} :: 0 <= i < |out| ==> out[i].prev == if i > 0 then out[i - 1] else null)
    && Injective(out)
  }

  // The next pointers of s from position i up to but not including position n.
  ghost predicate NextFrom<V>(s: seq<Handle<V>>, i: nat, n: nat)
    reads Members(s)`next
  {
    forall t {:trigger s[t].next} :: i <= t < n && t < |s| ==> s[t].next == if t + 1 < |s| then s[t + 1] else null
  }

  // Append e to the output list of a pass.
  method Emit<V>(first: Handle?<V>, tail: Handle?<V>, e: Handle<V>, ghost out: seq<Handle<V>>)
    returns (first': Handle<V>)
    requires OutLinked(out) && e !in out
    requires first == (if out == [] then null else out[0])
    requires tail == (if out == [] then null else out[|out| - 1])
    modifies Members(out)`next, e`prev
    ensures OutLinked(out + [e]) && first' == (out + [e])[0]
    ensures e.next == old(e.next)
  {
    if tail != null {
      tail.next := e;
      first' := first;
    } else {
      first' := e;
    }
    e.prev := tail;
  }

  function HandleAt<V>(s: seq<Handle<V>>, i: nat): Handle?<V> {
    if i < |s| then s[i] else null
  }

  // Step q over at most insize nodes, counting them.
  method StepOver<V>(p: Handle<V>, insize: nat, ghost s: seq<Handle<V>>, ghost a: nat)
    returns (q: Handle?<V>, psize: nat)
    requires a < |s| && p == s[a] && insize >= 1 && NextFrom(s, a, |s|)
    ensures psize == Sorting.Min(insize, |s| - a)
    ensures q == HandleAt(s, a + psize)
  {
    q := p;
    psize := 0;
    for i := 0 to insize
      invariant psize == i && a + i < |s| && q == s[a + i]
    {
      psize := psize + 1;
      assert s[a + i].next == HandleAt(s, a + i + 1);
      q := q.next;
      if q == null {
        break;
      }
    }
  }

  // The state of a pass: `out` has been emitted, and of s the positions from i
  // to b and from j on are still to come.
  ghost predicate MidPass<V>(s: seq<Handle<V>>, i: nat, b: nat, j: nat, out: seq<Handle<V>>)
    reads Members(s)`next, Members(s)`prev
  {
    && (forall x :: x in out ==> x in Members(s))
    && OutLinked(out)
    && NextFrom(s, i, b) && NextFrom(s, j, |s|)
    && (forall t :: (i <= t < b || j <= t) && t < |s| ==> s[t] !in out)
  }

  lemma MidPassSplit<V>(s: seq<Handle<V>>, a: nat, b: nat, out: seq<Handle<V>>)
    requires MidPass(s, a, a, a, out) && a <= b
    ensures MidPass(s, a, b, b, out)
  {
  }

  lemma MidPassJoin<V>(s: seq<Handle<V>>, b: nat, e: nat, out: seq<Handle<V>>)
    requires MidPass(s, b, b, e, out)
    ensures MidPass(s, e, e, e, out)
  {
  }

  // Emit position t of s, which is the next of either run.
  method EmitAt<V>(first: Handle?<V>, tail: Handle?<V>, e: Handle<V>, ghost s: seq<Handle<V>>,
                   ghost i: nat, ghost b: nat, ghost j: nat, ghost left: bool, ghost out: seq<Handle<V>>)
    returns (first': Handle<V>, next: Handle?<V>)
    requires Injective(s) && i <= b <= j <= |s| && MidPass(s, i, b, j, out)
    requires if left then i < b && e == s[i] else j < |s| && e == s[j]
    requires first == (if out == [] then null else out[0])
    requires tail == (if out == [] then null else out[|out| - 1])
    modifies Members(s)`next, Members(s)`prev
    ensures MidPass(s, if left then i + 1 else i, b, if left then j else j + 1, out + [e])
    ensures first' == (out + [e])[0]
    ensures next == HandleAt(s, (if left then i else j) + 1)
  {
    ghost var t := if left then i else j;
    assert s[t].next == HandleAt(s, t + 1);
    next := e.next;
    first' := Emit(first, tail, e, out);
    forall x | x in out + [e]
      ensures x in Members(s)
    {
      assert x in out || x == e;
    }
  }

  // The inner loop of HASH_SRT: merge the run at p with the run at q.
  method MergeRuns<V>(first: Handle?<V>, tail: Handle?<V>, p0: Handle<V>, psize0: nat, q0: Handle?<V>, insize: nat,
                      cmp: (Handle<V>, Handle<V>) -> int, ghost s: seq<Handle<V>>, ghost a: nat,
                      ghost out0: seq<Handle<V>>)
    returns (first': Handle?<V>, tail': Handle?<V>, q: Handle?<V>, ghost out: seq<Handle<V>>)
    requires Injective(s) && a < |s| && insize >= 1 && MidPass(s, a, a, a, out0)
    requires p0 == s[a] && psize0 == Sorting.Min(insize, |s| - a) && q0 == HandleAt(s, a + psize0)
    requires first == (if out0 == [] then null else out0[0])
    requires tail == (if out0 == [] then null else out0[|out0| - 1])
    modifies Members(s)`next, Members(s)`prev
    ensures var b, e := a + psize0, Sorting.Min(a + psize0 + insize, |s|);
            && out == out0 + Sorting.RestOf(s, a, b, b, e, cmp)
            && MidPass(s, e, e, e, out)
            && q == HandleAt(s, e)
    ensures out != [] && first' == out[0] && tail' == out[|out| - 1]
  {
    hide OutLinked, Injective, Sorting.RestOf, MidPass;
    MidPassSplit(s, a, a + psize0, out0);
    ghost var b, e := a + psize0, Sorting.Min(a + psize0 + insize, |s|);
    ghost var i, j := a, b;
    ghost var goal := out0 + Sorting.RestOf(s, a, b, b, e, cmp);
    var p: Handle?<V>, psize, qsize := p0, psize0, insize;
    first', tail', q, out := first, tail, q0, out0;
    assert MidPass(s, i, b, j, out);
    while psize > 0 || (qsize > 0 && q != null)
      invariant a <= i <= b <= j <= e
      invariant psize == b - i && qsize == insize - (j - b)
      invariant q == HandleAt(s, j) && (i < b ==> p == s[i])
      invariant out + Sorting.RestOf(s, i, b, j, e, cmp) == goal
      invariant MidPass(s, i, b, j, out)
      invariant first' == (if out == [] then null else out[0])
      invariant tail' == (if out == [] then null else out[|out| - 1])
      invariant out == [] ==> i == a && j == b
      decreases psize + qsize
    {
      var left := if psize == 0 then false
                  else if qsize == 0 || q == null then true
                  else cmp(p, q) <= 0;
      if left {
        Sorting.TakeLeft(out, s, i, b, j, e, cmp);
        var taken: Handle<V> := p;
        first', p := EmitAt(first', tail', taken, s, i, b, j, true, out);
        psize := psize - 1;
        i, tail', out := i + 1, taken, out + [taken];
      } else {
        Sorting.TakeRight(out, s, i, b, j, e, cmp);
        var taken: Handle<V> := q;
        first', q := EmitAt(first', tail', taken, s, i, b, j, false, out);
        qsize := qsize - 1;
        j, tail', out := j + 1, taken, out + [taken];
      }
    }
    Sorting.MergeOfNothing(out, s, b, e, cmp);
    MidPassJoin(s, b, e, out);
  }

  lemma AppLinkedStart<V>(s: seq<Handle<V>>)
    requires AppLinked(s)
    ensures Injective(s) && MidPass(s, 0, 0, 0, [])
  {
    forall i, j | 0 <= i < j < |s|
      ensures s[i] != s[j]
    {
      AppInjective(s, i, j);
    }
  }

  lemma AppLinkedEnd<V>(out: seq<Handle<V>>)
    requires OutLinked(out) && out != [] && out[|out| - 1].next == null
    ensures AppLinked(out)
  {
  }

  lemma SameMembers<V>(s: seq<Handle<V>>, t: seq<Handle<V>>)
    requires multiset(s) == multiset(t)
    ensures Members(s) == Members(t)
  {
    Sorting.SameElements(s, t);
  }

  // Between two merges of a pass: what is emitted, followed by what the rest of s
  // gives, is the whole pass.
  ghost predicate MidSort<V>(s: seq<Handle<V>>, insize: nat, cmp: (Handle<V>, Handle<V>) -> int, a: nat, p: Handle?<V>,
                             first: Handle?<V>, tail: Handle?<V>, nmerges: nat, out: seq<Handle<V>>)
    requires insize >= 1
    reads Members(s)`next, Members(s)`prev
  {
    && a <= |s| && p == HandleAt(s, a)
    && MidPass(s, a, a, a, out)
    && out + Sorting.Pass(s[a..], insize, cmp) == Sorting.Pass(s, insize, cmp)
    && nmerges + Sorting.MergeCount(|s| - a, insize) == Sorting.MergeCount(|s|, insize)
    && first == (if out == [] then null else out[0]) && tail == (if out == [] then null else out[|out| - 1])
    && (a > 0 ==> out != [])
  }

  // One merge of a pass.
  method SortRound<V>(p: Handle<V>, insize: nat, cmp: (Handle<V>, Handle<V>) -> int, ghost s: seq<Handle<V>>,
                      ghost a: nat, first: Handle?<V>, tail: Handle?<V>, nmerges: nat, ghost out: seq<Handle<V>>)
    returns (q: Handle?<V>, ghost e: nat, first': Handle?<V>, tail': Handle?<V>, ghost out': seq<Handle<V>>)
    requires Injective(s) && insize >= 1 && a < |s| && MidSort(s, insize, cmp, a, p, first, tail, nmerges, out)
    modifies Members(s)`next, Members(s)`prev
    ensures a < e <= |s| && MidSort(s, insize, cmp, e, q, first', tail', nmerges + 1, out')
  {
    hide Injective, Sorting.Merge, Sorting.Pass, Sorting.MergeCount, Sorting.RestOf, OutLinked;
    var q1, psize := StepOver(p, insize, s, a);
    first', tail', q, out' := MergeRuns(first, tail, p, psize, q1, insize, cmp, s, a, out);
    ghost var b := a + psize;
    e := Sorting.Min(b + insize, |s|);
    Sorting.RunBounds(|s|, a, insize);
    Sorting.CountStep(|s|, a, insize);
    Sorting.PassStep(s, a, b, e, insize, cmp);
    Sorting.RestIsMerge(s, a, b, e, cmp);
    Sorting.Regroup(out, Sorting.Merge(s[a..b], s[b..e], cmp), Sorting.Pass(s[e..], insize, cmp));
  }

  lemma MidSortStarts<V>(s: seq<Handle<V>>, insize: nat, cmp: (Handle<V>, Handle<V>) -> int)
    requires insize >= 1 && s != [] && MidPass(s, 0, 0, 0, [])
    ensures MidSort(s, insize, cmp, 0, s[0], null, null, 0, [])
  {
    assert s[0..] == s;
    assert [] + Sorting.Pass(s, insize, cmp) == Sorting.Pass(s, insize, cmp);
  }

  lemma MidSortEnds<V>(s: seq<Handle<V>>, insize: nat, cmp: (Handle<V>, Handle<V>) -> int, a: nat,
                       first: Handle?<V>, tail: Handle?<V>, nmerges: nat, out: seq<Handle<V>>)
    requires insize >= 1 && s != [] && MidSort(s, insize, cmp, a, null, first, tail, nmerges, out)
    ensures out == Sorting.Pass(s, insize, cmp) && Members(out) == Members(s)
            && nmerges == Sorting.MergeCount(|s|, insize)
    ensures out != [] && first == out[0] && tail == out[|out| - 1] && OutLinked(out)
  {
    hide Sorting.Pass, Sorting.MergeCount, OutLinked;
    assert s[a..] == [];
    Sorting.PassOfNothing<Handle<V>>(insize, cmp);
    assert out + [] == out;
    Sorting.PassMultiset(s, insize, cmp);
    SameMembers(s, out);
  }

  // One pass of HASH_SRT over the whole list.
  method SortPass<V>(list: Handle<V>, insize: nat, cmp: (Handle<V>, Handle<V>) -> int, ghost s: seq<Handle<V>>)
    returns (first: Handle<V>, tail: Handle<V>, nmerges: nat, ghost out: seq<Handle<V>>)
    requires AppLinked(s) && s != [] && list == s[0] && insize >= 1
    modifies Members(s)`next, Members(s)`prev
    ensures out == Sorting.Pass(s, insize, cmp) && Members(out) == Members(s)
    ensures nmerges == Sorting.MergeCount(|s|, insize)
    ensures AppLinked(out) && out != [] && first == out[0] && tail == out[|out| - 1]
  {
    hide OutLinked, Injective, AppLinked, MidPass, MidSort, Sorting.Pass, Sorting.MergeCount;
    AppLinkedStart(s);
    MidSortStarts(s, insize, cmp);
    ghost var a := 0;
    var p: Handle?<V>, f: Handle?<V>, t: Handle?<V> := list, null, null;
    nmerges, out := 0, [];
    while p != null
      invariant MidSort(s, insize, cmp, a, p, f, t, nmerges, out)
      decreases |s| - a
    {
      HandleInRange(s, insize, cmp, a, p, f, t, nmerges, out);
      p, a, f, t, out := SortRound(p, insize, cmp, s, a, f, t, nmerges, out);
      nmerges := nmerges + 1;
    }
    MidSortEnds(s, insize, cmp, a, f, t, nmerges, out);
    first, tail := f, t;
    SetLastNext(tail, out);
  }

  lemma HandleInRange<V>(s: seq<Handle<V>>, insize: nat, cmp: (Handle<V>, Handle<V>) -> int, a: nat, p: Handle<V>,
                         first: Handle?<V>, tail: Handle?<V>, nmerges: nat, out: seq<Handle<V>>)
    requires insize >= 1 && MidSort(s, insize, cmp, a, p, first, tail, nmerges, out)
    ensures a < |s|
  {
  }

  method SetLastNext<V>(tail: Handle<V>, ghost out: seq<Handle<V>>)
    requires OutLinked(out) && out != [] && tail == out[|out| - 1]
    modifies tail`next
    ensures AppLinked(out)
  {
    assert forall i :: 0 <= i < |out| - 1 ==> out[i] != out[|out| - 1];
    tail.next := null;
    AppLinkedEnd(out);
  }

  // The passes of HASH_SRT.  The run length stays below the item count while
  // another pass is due, so doubling it cannot wrap before it is last used.
  method SortList<V>(list: Handle<V>, cmp: (Handle<V>, Handle<V>) -> int, ghost s0: seq<Handle<V>>)
    returns (first: Handle<V>, tail: Handle<V>, ghost s: seq<Handle<V>>)
    requires AppLinked(s0) && s0 != [] && list == s0[0]
    modifies Members(s0)`next, Members(s0)`prev
    ensures s == Sorting.BottomUp(s0, 1, cmp) && Members(s) == Members(s0) && |s| == |s0|
    ensures AppLinked(s) && first == s[0] && tail == s[|s| - 1]
  {
    hide AppLinked, Sorting.Pass, Sorting.MergeCount;
    var insize, looping := 1, true;
    first, tail, s := list, list, s0;
    while looping
      invariant insize >= 1 && s != [] && first == s[0]
      invariant AppLinked(s) && Members(s) == Members(s0) && |s| == |s0|
      invariant insize == 1 || (looping ==> insize < |s|)
      invariant if looping then Sorting.BottomUp(s, insize, cmp) == Sorting.BottomUp(s0, 1, cmp)
                else s == Sorting.BottomUp(s0, 1, cmp) && tail == s[|s| - 1]
      decreases looping, |s| - insize
    {
      var nmerges;
      Sorting.PassLength(s, insize, cmp);
      Sorting.OneMerge(|s|, insize);
      first, tail, nmerges, s := SortPass(first, insize, cmp, s);
      if nmerges <= 1 {
        looping := false;
      }
      insize := insize * 2;
    }
  }

  // ----- the recount of HASH_FSCK

  function TotalLength<V>(chains: seq<seq<Handle<V>>>): nat {
    if chains == [] then 0 else |chains[0]| + TotalLength(chains[1..])
  }

  ghost function Nodes<V>(chains: seq<seq<Handle<V>>>): set<Handle<V>> {
    set b, h | 0 <= b < |chains| && h in chains[b] :: h
  }

  lemma {:induction false} TotalLengthSnoc<V>(chains: seq<seq<Handle<V>>>, n: nat)
    requires n < |chains|
    ensures TotalLength(chains[..n + 1]) == TotalLength(chains[..n]) + |chains[n]|
  {
    if n == 0 {
      assert chains[..1][1..] == [];
    } else {
      TotalLengthSnoc(chains[1..], n - 1);
      assert chains[..n + 1][1..] == chains[1..][..n] && chains[..n][1..] == chains[1..][..n - 1];
    }
  }

  lemma {:induction false} InjectiveSize<V>(s: seq<Handle<V>>)
    requires Injective(s)
    ensures |Members(s)| == |s|
  {
    if s != [] {
      InjectiveSize(s[1..]);
      assert Members(s) == {s[0]} + Members(s[1..]);
    }
  }

  ghost predicate BackLinkAt<V>(chain: seq<Handle<V>>, i: nat)
    requires i < |chain|
    reads {chain[i]}`hhPrev
  {
    chain[i].hhPrev == if i > 0 then chain[i - 1] else null
  }

  ghost predicate AppBackLinkAt<V>(s: seq<Handle<V>>, i: nat)
    requires i < |s|
    reads {s[i]}`prev
  {
    s[i].prev == if i > 0 then s[i - 1] else null
  }

  lemma ChainLinkedIff<V>(chain: seq<Handle<V>>)
    requires NextLinked(chain)
    ensures ChainLinked(chain) <==> forall i: nat :: i < |chain| ==> BackLinkAt(chain, i)
  {
    forall i: nat | i < |chain|
      ensures BackLinkAt(chain, i) <==> chain[i].hhPrev == if i > 0 then chain[i - 1] else null
    {
    }
  }

  lemma AppLinkedIff<V>(s: seq<Handle<V>>)
    requires AppNextLinked(s)
    ensures AppLinked(s) <==> forall i: nat :: i < |s| ==> AppBackLinkAt(s, i)
  {
    forall i: nat | i < |s|
      ensures AppBackLinkAt(s, i) <==> s[i].prev == if i > 0 then s[i - 1] else null
    {
    }
  }

  // The nodes of a chain and whether all their back pointers are right.
  method CheckChain<V>(first: Handle?<V>, ghost chain: seq<Handle<V>>) returns (n: nat, good: bool)
    requires NextLinked(chain) && first == HandleAt(chain, 0)
    ensures n == |chain| && (good <==> ChainLinked(chain))
  {
    n, good := 0, true;
    var thh, prev: Handle?<V> := first, null;
    while thh != null
      invariant n <= |chain| && thh == HandleAt(chain, n)
      invariant good <==> forall i: nat :: i < n ==> BackLinkAt(chain, i)
      invariant prev == if n == 0 then null else chain[n - 1]
      decreases |chain| - n
    {
      assert thh == chain[n] && chain[n].hhNext == HandleAt(chain, n + 1);
      assert prev == thh.hhPrev <==> BackLinkAt(chain, n);
      if prev != thh.hhPrev {
        good := false;
      }
      n := n + 1;
      prev := thh;
      thh := thh.hhNext;
    }
    ChainLinkedIff(chain);
  }

  method CheckAppOrder<V>(first: Handle?<V>, ghost s: seq<Handle<V>>) returns (n: nat, good: bool)
    requires AppNextLinked(s) && first == HandleAt(s, 0)
    ensures n == |s| && (good <==> AppLinked(s))
  {
    n, good := 0, true;
    var thh, prev: Handle?<V> := first, null;
    while thh != null
      invariant n <= |s| && thh == HandleAt(s, n)
      invariant good <==> forall i: nat :: i < n ==> AppBackLinkAt(s, i)
      invariant prev == if n == 0 then null else s[n - 1]
      decreases |s| - n
    {
      assert thh == s[n] && s[n].next == HandleAt(s, n + 1);
      assert prev == thh.prev <==> AppBackLinkAt(s, n);
      if prev != thh.prev {
        good := false;
      }
      n := n + 1;
      prev := thh;
      thh := thh.next;
    }
    AppLinkedIff(s);
  }

  // An allocated and zeroed bucket array.
  method ZeroedBuckets<V>(n: nat) returns (bs: array<Bucket<V>>)
    ensures fresh(bs) && bs.Length == n
    ensures forall b :: 0 <= b < n ==> bs[b] == Bucket(null, 0, 0)
  {
    bs := new Bucket<V>[n](_ => Bucket(null, 0, 0));
  }

  ghost function NoChains<V>(n: nat): (s: seq<seq<Handle<V>>>)
    ensures |s| == n && forall b :: 0 <= b < n ==> s[b] == []
  {
    seq(n, _ => [])
  }

  class Index<V> {
    const hash: string -> U32
    var head: Handle?<V>
    var tail: Handle?<V>
    var buckets: array<Bucket<V>>
    var numBuckets: nat
    var log2NumBuckets: nat
    var numItems: nat
    var idealChainMaxlen: nat
    var nonidealItems: nat
    var ineffExpands: nat
    var noexpand: bool

    ghost var appOrder: seq<Handle<V>>
    ghost var chains: seq<seq<Handle<V>>>
    ghost var growths: seq<Growth>        // the doublings of the present table
    ghost var Repr: set<object>

    ghost predicate Valid()
      reads this, Repr
      ensures Valid() ==> this in Repr
    {
      && this in Repr && buckets in Repr
      && (forall h :: h in appOrder ==> h in Repr)
      && (head == null <==> appOrder == [])
      && (head != null ==> AppOk() && TableOk(appOrder) && GrowthOk())
    }

    // Every doubling is recorded, and growth has stopped exactly if two in a row were
    // ineffective.
    ghost predicate GrowthOk()
      reads this`growths, this`numBuckets, this`ineffExpands, this`noexpand
    {
      && numBuckets == 32 * Pow2(|growths|)
      && ineffExpands == Trailing(growths)
      && (noexpand <==> TwoInARow(growths))
    }

    // Adding h doubles the buckets: its chain, with h, reaches its threshold, and
    // growth has not stopped.
    ghost predicate Grows(h: Handle<V>)
      requires Valid()
      reads this, Repr
    {
      head != null && !noexpand
      && (TableIsPow2(appOrder);
          BucketIndexInRange(h.hashv, numBuckets, log2NumBuckets);
          var b := h.hashv % numBuckets;
          buckets[b].count + 1 >= (buckets[b].expandMult + 1) * 10)
    }

    ghost predicate AppOk()
      reads this`head, this`tail, this`numItems, this`appOrder, Members(appOrder)`next, Members(appOrder)`prev
    {
      && appOrder != []
      && head == appOrder[0]
      && tail == appOrder[|appOrder| - 1]
      && numItems == |appOrder|
      && AppLinked(appOrder)
      && (forall h :: h in appOrder ==> h.hashv == HashValue(hash, h.key))
    }

    ghost predicate TableOk(items: seq<Handle<V>>)
      reads this`numBuckets, this`log2NumBuckets, this`buckets, this`chains, buckets
      reads Members(items)`hhNext, Members(items)`hhPrev
    {
      && numBuckets == Pow2(log2NumBuckets) == buckets.Length
      && Holds(buckets, chains, Members(items))
    }

    constructor (hash: string -> U32)
      ensures Valid() && fresh(Repr)
      ensures appOrder == [] && this.hash == hash
    {
      this.hash := hash;
      head, tail := null, null;
      buckets := new Bucket<V>[0];
      numBuckets, log2NumBuckets, numItems := 0, 0, 0;
      idealChainMaxlen, nonidealItems, ineffExpands, noexpand := 0, 0, 0, false;
      appOrder, chains, growths := [], [], [];
      new;
      Repr := {this, buckets};
    }

    // HASH_FIND with HASH_FIND_IN_BKT
    method Find(key: string) returns (out: Handle?<V>)
      requires Valid()
      ensures out == null ==> forall h :: h in appOrder ==> h.key != key
      ensures out != null ==> out in appOrder && out.key == key
    {
      out := null;
      if head != null {
        var bkt := BucketIndex(HashValue(hash, key), numBuckets);
        BucketIndexInRange(HashValue(hash, key), numBuckets, log2NumBuckets);
        ghost var chain := chains[bkt];
        assert BucketOk(buckets[bkt], chain);
        ghost var k := 0;
        out := buckets[bkt].head;
        while out != null && out.key != key
          invariant k <= |chain|
          invariant out == if k < |chain| then chain[k] else null
          invariant forall j :: 0 <= j < k ==> chain[j].key != key
          decreases |chain| - k
        {
          assert chain[k].hhNext == if k + 1 < |chain| then chain[k + 1] else null;
          out := out.hhNext;
          k := k + 1;
        }
        if out == null {
          forall h | h in appOrder
            ensures h.key != key
          {
            assert h.key == key ==> h in chain;
          }
        } else {
          assert out in chains[bkt];
        }
      }
    }

    // Thirty-two buckets without an item, and no doubling yet.
    ghost predicate FreshTable()
      reads this`numBuckets, this`buckets, this`growths, this`noexpand, this`ineffExpands, buckets
    {
      && numBuckets == buckets.Length == 32 && growths == [] && !noexpand && ineffExpands == 0
      && forall b :: 0 <= b < 32 ==> buckets[b] == Bucket(null, 0, 0)
    }

    // HASH_MAKE_TABLE
    method MakeTable()
      requires head != null
      modifies this`tail, this`numBuckets, this`log2NumBuckets, this`numItems, this`idealChainMaxlen,
               this`nonidealItems, this`ineffExpands, this`noexpand, this`buckets, this`chains, this`growths,
               this`Repr
      ensures growths == [] && GrowthOk()
      ensures fresh(buckets) && Repr == old(Repr) + {buckets}
      ensures TableOk([])
      ensures numItems == 0 && tail == head && FreshTable()
    {
      hide Holds, Pow2, GrowthOk, TableOk, FreshTable, Members, And;
      tail := head;
      ClearCounters();
      buckets := ZeroedBuckets(numBuckets);
      chains := NoChains(numBuckets);
      Repr := Repr + {buckets};
      FreshIntro();
      EmptyTable();
      FreshIsOk();
    }

    method ClearCounters()
      modifies this`numBuckets, this`log2NumBuckets, this`numItems, this`idealChainMaxlen, this`nonidealItems,
               this`ineffExpands, this`noexpand, this`growths
      ensures numBuckets == 32 && log2NumBuckets == INITIAL_NUM_BUCKETS_LOG2 && numItems == 0
      ensures idealChainMaxlen == nonidealItems == ineffExpands == 0 && !noexpand && growths == []
    {
      numBuckets, log2NumBuckets, numItems := 32, INITIAL_NUM_BUCKETS_LOG2, 0;
      idealChainMaxlen, nonidealItems, ineffExpands, noexpand := 0, 0, 0, false;
      growths := [];
    }

    lemma FreshIntro()
      requires numBuckets == buckets.Length == 32 && growths == [] && !noexpand && ineffExpands == 0
      requires forall b :: 0 <= b < 32 ==> buckets[b] == Bucket(null, 0, 0)
      ensures FreshTable()
    {
    }

    lemma EmptyTable()
      requires FreshTable() && log2NumBuckets == INITIAL_NUM_BUCKETS_LOG2
      requires |chains| == 32 && forall b :: 0 <= b < 32 ==> chains[b] == []
      ensures TableOk([])
    {
      hide Holds, Pow2;
      Pow2Of5();
      EmptyHolds(buckets, chains);
    }

    lemma FreshIsOk()
      requires FreshTable()
      ensures GrowthOk()
    {
    }

    static lemma EmptyHolds(bs: array<Bucket<V>>, chains: seq<seq<Handle<V>>>)
      requires bs.Length == |chains| >= 1
      requires forall b :: 0 <= b < bs.Length ==> bs[b] == Bucket(null, 0, 0) && chains[b] == []
      ensures Holds(bs, chains, {}) && Members<V>([]) == {}
    {
    }

    // ceil(n/b) by shift and mask; b is the doubled bucket count.
    static lemma IdealLength(numItems: nat, log2: nat)
      requires numItems >= 1
      ensures Shr(numItems, log2 + 1) + (if And(numItems, Pow2(log2) * 2 - 1) != 0 then 1 else 0)
           == CeilDiv(numItems, 2 * Pow2(log2)) >= 1
    {
      ShiftIsDiv(numItems, log2 + 1);
      MaskIsMod(numItems, log2 + 1);
      CeilDivIsLeast(numItems, 2 * Pow2(log2));
    }

    // What a redistribution keeps true of the new buckets: they hold the
    // handles moved so far and the statistics agree with their counts.
    static ghost predicate Redistributed(nb: array<Bucket<V>>, nchains: seq<seq<Handle<V>>>, moved: set<Handle<V>>,
                                         ideal: nat, nonideal: nat)
      reads nb, moved`hhNext, moved`hhPrev
    {
      Holds(nb, nchains, moved) && StatsOk(nb[..], ideal, nonideal)
    }

    // One step of the redistribution in HASH_EXPAND_BUCKETS.
    method MoveNode(nb: array<Bucket<V>>, ghost nchains: seq<seq<Handle<V>>>, ghost moved: set<Handle<V>>,
                    thh: Handle<V>)
      returns (ghost nchains': seq<seq<Handle<V>>>)
      requires Redistributed(nb, nchains, moved, idealChainMaxlen, nonidealItems)
      requires thh !in moved && nb.Length == 2 * numBuckets && numBuckets == Pow2(log2NumBuckets)
      modifies nb, this`nonidealItems, thh`hhPrev, thh`hhNext, moved`hhPrev
      ensures Redistributed(nb, nchains', moved + {thh}, idealChainMaxlen, nonidealItems)
    {
      hide And, Holds, ExcessSum, BucketIndex;
      BucketIndexInRange(thh.hashv, nb.Length, log2NumBuckets + 1);
      var bkt := BucketIndex(thh.hashv, numBuckets * 2);
      ghost var before := nb[..];
      assert MultOk(before[bkt], idealChainMaxlen);
      var bk := nb[bkt].(count := nb[bkt].count + 1);
      if bk.count > idealChainMaxlen {
        nonidealItems := nonidealItems + 1;
        bk := bk.(expandMult := bk.count / idealChainMaxlen);
      }
      nchains' := Push(nb, nchains, moved, bkt, bk, thh);
      ExcessSumUpdate(before, bkt, bk.(head := thh), idealChainMaxlen);
    }

    // The inner loop of HASH_EXPAND_BUCKETS: move one whole old chain.
    method MoveChain(nb: array<Bucket<V>>, ghost nchains: seq<seq<Handle<V>>>, ghost moved: set<Handle<V>>,
                     first: Handle?<V>, ghost chain: seq<Handle<V>>)
      returns (ghost nchains': seq<seq<Handle<V>>>)
      requires NextLinked(chain) && Injective(chain) && first == if chain == [] then null else chain[0]
      requires numBuckets == Pow2(log2NumBuckets) && nb.Length == 2 * numBuckets
      requires Redistributed(nb, nchains, moved, idealChainMaxlen, nonidealItems)
      requires forall h :: h in chain ==> h !in moved
      modifies nb, this`nonidealItems, moved`hhPrev, Members(chain)`hhPrev, Members(chain)`hhNext
      ensures Redistributed(nb, nchains', moved + Members(chain), idealChainMaxlen, nonidealItems)
    {
      hide Redistributed, Pow2;
      ghost var m: set<Handle<V>> := moved;
      ghost var k := 0;
      nchains' := nchains;
      var thh := first;
      while thh != null
        invariant k <= |chain|
        invariant Redistributed(nb, nchains', m, idealChainMaxlen, nonidealItems)
        invariant forall h :: h in m ==> h in moved || h in chain
        invariant forall h :: h in moved ==> h in m
        invariant thh == if k < |chain| then chain[k] else null
        invariant forall j :: 0 <= j < |chain| ==> (chain[j] in m <==> j < k)
        invariant forall j {:trigger chain[j].hhNext} :: k <= j < |chain| ==>
                    chain[j].hhNext == if j + 1 < |chain| then chain[j + 1] else null
        decreases |chain| - k
      {
        assert chain[k].hhNext == if k + 1 < |chain| then chain[k + 1] else null;
        var nxt := thh.hhNext;
        nchains' := MoveNode(nb, nchains', m, thh);
        m := m + {thh};
        thh := nxt;
        k := k + 1;
      }
      assert m == moved + Members(chain);
    }

    // The old buckets during a redistribution: chains before `from` are gone.
    ghost predicate OldChains(from: nat)
      reads this, buckets, Members(appOrder)`hhNext
    {
      && buckets.Length == numBuckets == |chains| >= 1
      && (forall b :: 0 <= b < numBuckets ==> buckets[b].head == if chains[b] == [] then null else chains[b][0])
      && (forall b :: 0 <= b < numBuckets ==> forall h :: h in chains[b] ==> h in Members(appOrder))
      && (forall b :: 0 <= b < numBuckets ==> forall h :: h in chains[b] ==> BucketIndex(h.hashv, numBuckets) == b)
      && (forall b :: from <= b < numBuckets ==> NextLinked(chains[b]))
    }

    // Between two old buckets: those before bi are emptied into the new ones.
    ghost predicate MidRedistribution(nb: array<Bucket<V>>, nchains: seq<seq<Handle<V>>>, moved: set<Handle<V>>,
                                      bi: nat)
      reads this, buckets, nb, Members(appOrder)`hhNext, moved`hhNext, moved`hhPrev
    {
      && bi <= numBuckets && OldChains(bi)
      && Redistributed(nb, nchains, moved, idealChainMaxlen, nonidealItems)
      && (forall h :: h in moved ==> h in Members(appOrder) && BucketIndex(h.hashv, numBuckets) < bi)
      && (forall b :: 0 <= b < bi ==> forall h :: h in chains[b] ==> h in moved)
    }

    method MoveBucket(nb: array<Bucket<V>>, ghost nchains: seq<seq<Handle<V>>>, ghost moved: set<Handle<V>>, bi: nat)
      returns (ghost nchains': seq<seq<Handle<V>>>, ghost moved': set<Handle<V>>)
      requires bi < numBuckets == Pow2(log2NumBuckets) && MidRedistribution(nb, nchains, moved, bi)
      requires nb != buckets && nb.Length == 2 * numBuckets && Injective(chains[bi])
      modifies nb, this`nonidealItems, Members(appOrder)`hhPrev, Members(appOrder)`hhNext
      ensures MidRedistribution(nb, nchains', moved', bi + 1)
    {
      hide And, BucketIndex, Pow2, Redistributed;
      ghost var chain := chains[bi];
      assert forall h :: h in chain ==> h in Members(appOrder) && BucketIndex(h.hashv, numBuckets) == bi;
      nchains' := MoveChain(nb, nchains, moved, buckets[bi].head, chain);
      moved' := moved + Members(chain);
    }

    // The outer loop of HASH_EXPAND_BUCKETS.
    method Redistribute(nb: array<Bucket<V>>, ghost nchains: seq<seq<Handle<V>>>)
      returns (ghost nchains': seq<seq<Handle<V>>>)
      requires nb != buckets && OldChains(0) && Redistributed(nb, nchains, {}, idealChainMaxlen, nonidealItems)
      requires numBuckets == Pow2(log2NumBuckets) && nb.Length == 2 * numBuckets
      requires forall b :: 0 <= b < numBuckets ==> Injective(chains[b])
      requires forall h :: h in appOrder ==>
                 BucketIndex(h.hashv, numBuckets) < |chains| && h in chains[BucketIndex(h.hashv, numBuckets)]
      modifies nb, this`nonidealItems, Members(appOrder)`hhPrev, Members(appOrder)`hhNext
      ensures Redistributed(nb, nchains', Members(appOrder), idealChainMaxlen, nonidealItems)
    {
      hide And, BucketIndex, Pow2, Redistributed, MidRedistribution, Injective, OldChains;
      ghost var moved: set<Handle<V>> := {};
      nchains' := nchains;
      RedistributionStarts(nb, nchains');
      for bi := 0 to numBuckets
        invariant MidRedistribution(nb, nchains', moved, bi)
      {
        nchains', moved := MoveBucket(nb, nchains', moved, bi);
      }
      AllMoved(nb, nchains', moved);
    }

    lemma RedistributionStarts(nb: array<Bucket<V>>, nchains: seq<seq<Handle<V>>>)
      requires OldChains(0) && Redistributed(nb, nchains, {}, idealChainMaxlen, nonidealItems)
      ensures MidRedistribution(nb, nchains, {}, 0)
    {
      hide And, BucketIndex, Redistributed, OldChains;
    }

    lemma AllMoved(nb: array<Bucket<V>>, nchains: seq<seq<Handle<V>>>, moved: set<Handle<V>>)
      requires MidRedistribution(nb, nchains, moved, numBuckets)
      requires forall h :: h in appOrder ==>
                 BucketIndex(h.hashv, numBuckets) < |chains| && h in chains[BucketIndex(h.hashv, numBuckets)]
      ensures Redistributed(nb, nchains, Members(appOrder), idealChainMaxlen, nonidealItems)
    {
      hide BucketIndex, Redistributed;
      assert moved == Members(appOrder);
    }

    lemma StartExpand(nb: array<Bucket<V>>, nchains: seq<seq<Handle<V>>>)
      requires TableOk(appOrder)
      requires nb.Length == |nchains| == 2 * numBuckets
      requires forall b :: 0 <= b < nb.Length ==> nb[b] == Bucket(null, 0, 0) && nchains[b] == []
      requires idealChainMaxlen >= 1 && nonidealItems == 0
      ensures OldChains(0) && Redistributed(nb, nchains, {}, idealChainMaxlen, nonidealItems)
      ensures forall b :: 0 <= b < numBuckets ==> Injective(chains[b])
      ensures forall h :: h in appOrder ==>
                BucketIndex(h.hashv, numBuckets) < |chains| && h in chains[BucketIndex(h.hashv, numBuckets)]
    {
      hide And;
      ExcessSumOfEmpty(nb[..], idealChainMaxlen);
      forall b | 0 <= b < numBuckets
        ensures Injective(chains[b]) && NextLinked(chains[b])
        ensures buckets[b].head == if chains[b] == [] then null else chains[b][0]
        ensures forall h :: h in chains[b] ==> BucketIndex(h.hashv, numBuckets) == b
      {
        assert BucketOk(buckets[b], chains[b]);
        ChainIsInjective(chains[b]);
      }
    }

    // What a doubling records about the new distribution.
    ghost predicate GrowthStats()
      reads this, buckets
    {
      && numBuckets >= 1
      && idealChainMaxlen == CeilDiv(numItems, numBuckets)
      && StatsOk(buckets[..], idealChainMaxlen, nonidealItems)
      && (nonidealItems <= numItems / 2 ==> ineffExpands == 0)
      && (ineffExpands > 1 ==> noexpand)
    }

    // HASH_EXPAND_BUCKETS
    method Expand()
      requires appOrder != [] && numItems == |appOrder| && TableOk(appOrder) && GrowthOk() && !noexpand
      modifies this`buckets, this`numBuckets, this`log2NumBuckets, this`idealChainMaxlen,
               this`nonidealItems, this`ineffExpands, this`noexpand, this`chains, this`growths, this`Repr,
               Members(appOrder)`hhPrev, Members(appOrder)`hhNext
      ensures fresh(buckets) && Repr == old(Repr) + {buckets}
      ensures TableOk(appOrder) && numBuckets == 2 * old(numBuckets)
      ensures GrowthStats()
      ensures ineffExpands == if nonidealItems > numItems / 2 then old(ineffExpands) + 1 else 0
      ensures noexpand == (old(noexpand) || ineffExpands > 1)
      ensures GrowthOk() && growths == old(growths) + [Growth(numItems, nonidealItems)]
    {
      hide And, Shr, CeilDiv, GrowthOk, OldChains, Injective, TableOk, Redistributed, GrowthStats;
      TableIsPow2(appOrder);
      var nb := ZeroedBuckets(2 * numBuckets);
      IdealLength(numItems, log2NumBuckets);
      idealChainMaxlen := Shr(numItems, log2NumBuckets + 1) + if And(numItems, numBuckets * 2 - 1) != 0 then 1 else 0;
      nonidealItems := 0;
      StartExpand(nb, NoChains(2 * numBuckets));
      ghost var nchains := Redistribute(nb, NoChains(2 * numBuckets));
      FinishExpand(nb, nchains);
    }

    // The assignments after the redistribution loop.
    method FinishExpand(nb: array<Bucket<V>>, ghost nchains: seq<seq<Handle<V>>>)
      requires numBuckets == Pow2(log2NumBuckets) && nb.Length == 2 * numBuckets
      requires Redistributed(nb, nchains, Members(appOrder), idealChainMaxlen, nonidealItems)
      requires idealChainMaxlen == CeilDiv(numItems, nb.Length)
      requires GrowthOk() && !noexpand
      modifies this`buckets, this`numBuckets, this`log2NumBuckets, this`ineffExpands, this`noexpand, this`chains,
               this`growths, this`Repr
      ensures GrowthOk() && growths == old(growths) + [Growth(numItems, nonidealItems)]
      ensures buckets == nb && Repr == old(Repr) + {nb}
      ensures TableOk(appOrder) && GrowthStats()
      ensures numBuckets == 2 * old(numBuckets)
      ensures ineffExpands == if nonidealItems > numItems / 2 then old(ineffExpands) + 1 else 0
      ensures noexpand == (old(noexpand) || ineffExpands > 1)
    {
      GrowthElim();
      hide And, CeilDiv, Holds, ExcessSum, MultOk, GrowthOk, Pow2, Trailing, TwoInARow;
      NextPow2(log2NumBuckets);
      buckets := nb;
      numBuckets := numBuckets * 2;
      log2NumBuckets := log2NumBuckets + 1;
      chains := nchains;
      Repr := Repr + {buckets};
      CountGrowth(old(numBuckets));
    }

    // Whether the doubling was worth it; two in a row that were not stop growth.
    method CountGrowth(ghost was: nat)
      requires numBuckets == 2 * was && was == 32 * Pow2(|growths|)
      requires ineffExpands == Trailing(growths) && !noexpand && !TwoInARow(growths)
      modifies this`ineffExpands, this`noexpand, this`growths
      ensures GrowthOk() && growths == old(growths) + [Growth(numItems, nonidealItems)]
      ensures ineffExpands == if nonidealItems > numItems / 2 then old(ineffExpands) + 1 else 0
      ensures noexpand == (ineffExpands > 1)
    {
      hide GrowthOk, Pow2, Trailing, TwoInARow;
      ShiftByOne(numItems);
      ineffExpands := if nonidealItems > Shr(numItems, 1) then ineffExpands + 1 else 0;
      if ineffExpands > 1 {
        noexpand := true;
      }
      growths := growths + [Growth(numItems, nonidealItems)];
      GrowthIntro(old(growths), old(ineffExpands));
    }

    static lemma NextPow2(k: nat)
      ensures Pow2(k + 1) == 2 * Pow2(k)
    {
    }

    lemma GrowthElim()
      requires GrowthOk()
      ensures numBuckets == 32 * Pow2(|growths|) && ineffExpands == Trailing(growths)
      ensures noexpand <==> TwoInARow(growths)
    {
    }

    lemma GrowthIntro(was: seq<Growth>, ineff: nat)
      requires !TwoInARow(was) && ineff == Trailing(was) && numBuckets == 64 * Pow2(|was|)
      requires growths == was + [Growth(numItems, nonidealItems)]
      requires ineffExpands == if nonidealItems > numItems / 2 then ineff + 1 else 0
      requires noexpand == (ineffExpands > 1)
      ensures GrowthOk()
    {
      GrowthGoesOn(was, Growth(numItems, nonidealItems));
      hide Pow2, Trailing, TwoInARow;
    }

    static lemma GrowthGoesOn(growths: seq<Growth>, g: Growth)
      requires !TwoInARow(growths)
      ensures Trailing(growths + [g]) == if Ineffective(g) then Trailing(growths) + 1 else 0
      ensures TwoInARow(growths + [g]) <==> Trailing(growths + [g]) > 1
      ensures Pow2(|growths + [g]|) == 2 * Pow2(|growths|)
    {
      var all := growths + [g];
      assert all[..|growths|] == growths;
      assert forall i :: 0 <= i < |growths| ==> all[i] == growths[i];
      if Trailing(all) > 1 {
        assert Ineffective(all[|growths| - 1]) && Ineffective(all[|growths|]);
      }
    }

    // HASH_ADD_TO_BKT: `h` is already the last item in application order.
    method AddToBkt(bkt: nat, h: Handle<V>)
      requires appOrder != [] && numItems == |appOrder|
      requires h == appOrder[|appOrder| - 1] && h !in appOrder[..|appOrder| - 1]
      requires TableOk(appOrder[..|appOrder| - 1])
      requires bkt == BucketIndex(h.hashv, numBuckets) < numBuckets && GrowthOk()
      modifies this`buckets, this`numBuckets, this`log2NumBuckets, this`idealChainMaxlen,
               this`nonidealItems, this`ineffExpands, this`noexpand, this`chains, this`growths, this`Repr,
               buckets, Members(appOrder)`hhPrev, Members(appOrder)`hhNext
      ensures (buckets == old(buckets) && Repr == old(Repr)) || (fresh(buckets) && Repr == old(Repr) + {buckets})
      ensures TableOk(appOrder)
      ensures var mult := old(buckets[bkt].expandMult) + 1;
              var grow := old(buckets[bkt].count) + 1 >= mult * BKT_CAPACITY_THRESH && !old(noexpand);
              && numBuckets == (if grow then 2 * old(numBuckets) else old(numBuckets))
              && (grow ==> GrowthStats() && growths == old(growths) + [Growth(numItems, nonidealItems)])
              && (!grow ==> growths == old(growths) && buckets == old(buckets)
                            && Raised(old(buckets[..]), bkt, buckets[..]))
      ensures GrowthOk()
      ensures forall x :: x in Members(appOrder) ==> x.next == old(x.next) && x.prev == old(x.prev)
    {
      hide And, BucketIndex, GrowthStats, Holds, Pow2, GrowthOk;
      ghost var items := Members(appOrder[..|appOrder| - 1]);
      assert items + {h} == Members(appOrder);
      var bk := buckets[bkt].(count := buckets[bkt].count + 1);
      chains := Push(buckets, chains, items, bkt, bk, h);
      if buckets[bkt].count >= (buckets[bkt].expandMult + 1) * BKT_CAPACITY_THRESH && !noexpand {
        Expand();
      }
    }

    // The else branch of HASH_ADD_KEYPTR: behind the last item.
    method LinkBehind(h: Handle<V>)
      requires appOrder != [] && tail == appOrder[|appOrder| - 1] && AppLinked(appOrder) && h !in appOrder
               && h.next == null
      modifies this`tail, h`prev, Members(appOrder)`next
      ensures tail == h && AppLinked(appOrder + [h])
    {
      assert appOrder[|appOrder| - 1].next == null;
      AppOnlyAt(appOrder, |appOrder| - 1);
      tail.next := h;
      h.prev := tail;
      tail := h;
    }

    // The application-order half of HASH_ADD_KEYPTR.
    method LinkLast(h: Handle<V>)
      requires Valid() && h !in Repr && h.hashv == HashValue(hash, h.key)
      modifies this, h`next, h`prev, Members(appOrder)`next
      ensures GrowthOk()
      ensures if old(head) == null then FreshTable()
              else
                && buckets == old(buckets) && numBuckets == old(numBuckets) && noexpand == old(noexpand)
                && growths == old(growths) && ineffExpands == old(ineffExpands)
      ensures appOrder == old(appOrder) + [h] && Repr >= old(Repr) + {h, buckets}
      ensures fresh(Repr - old(Repr) - {h})
      ensures AppOk() && TableOk(old(appOrder))
      ensures head != null && numItems == |appOrder|
      ensures Members(appOrder) <= Repr
    {
      hide *;
      ValidElim();
      if head == null {
        NothingListed();
        LinkFirst(h);
      } else {
        FilledElim();
        LinkMore(h);
      }
      Repr := Repr + {h};
    }

    // The first item makes the table.
    method LinkFirst(h: Handle<V>)
      requires head == null && appOrder == [] && h.hashv == HashValue(hash, h.key)
      modifies this, h`next, h`prev
      ensures FreshTable() && GrowthOk() && TableOk([]) && AppOk()
      ensures appOrder == [h] && head == h && numItems == 1 && Members(appOrder) == {h}
      ensures fresh(buckets) && Repr == old(Repr) + {buckets}
    {
      hide *;
      h.next := null;
      head := h;
      h.prev := null;
      MakeTable();
      SingleLinked(h);
      numItems := numItems + 1;
      appOrder := [h];
      AppIntro();
    }

    // Any other goes behind the last.
    method LinkMore(h: Handle<V>)
      requires AppOk() && TableOk(appOrder) && h !in appOrder && h.hashv == HashValue(hash, h.key)
      modifies this`tail, this`numItems, this`appOrder, h`next, h`prev, Members(appOrder)`next
      ensures AppOk() && TableOk(old(appOrder))
      ensures appOrder == old(appOrder) + [h] && head != null && numItems == |appOrder|
      ensures Members(appOrder) == old(Members(appOrder)) + {h}
    {
      hide AppOk, HashValue, AppLinked, Holds, And, BucketIndex;
      AppElim();
      h.next := null;
      LinkBehind(h);
      MembersSnoc(appOrder, h);
      numItems := numItems + 1;
      appOrder := appOrder + [h];
      AppIntro();
    }

    lemma NothingListed()
      requires Valid() && head == null
      ensures appOrder == [] && Members(appOrder) == {}
    {
    }

    static lemma MembersSnoc(s: seq<Handle<V>>, h: Handle<V>)
      ensures Members(s + [h]) == Members(s) + {h}
    {
    }

    static lemma SingleLinked(h: Handle<V>)
      requires h.next == null && h.prev == null
      ensures AppLinked([h]) && Members([h]) == {h}
    {
    }

    twostate lemma AppOkKept()
      requires old(AppOk())
      requires head == old(head) && tail == old(tail) && numItems == old(numItems) && appOrder == old(appOrder)
      requires forall x :: x in Members(appOrder) ==> x.next == old(x.next) && x.prev == old(x.prev)
      ensures AppOk()
    {
      assert forall i :: 0 <= i < |appOrder| ==> appOrder[i] in Members(appOrder);
    }

    // HASH_ADD_KEYPTR
    method AddKeyptr(h: Handle<V>)
      requires Valid() && h !in Repr && h.hashv == HashValue(hash, h.key)
      modifies Repr, h
      ensures Valid() && fresh(Repr - old(Repr) - {h})
      ensures appOrder == old(appOrder) + [h]
      ensures numBuckets
              == if old(head) == null then 32 else if old(Grows(h)) then 2 * old(numBuckets) else old(numBuckets)
      ensures growths == if old(head) == null then []
                         else old(growths) + if old(Grows(h)) then [Growth(|appOrder|, nonidealItems)] else []
      ensures old(Grows(h)) ==> GrowthStats()
      ensures old(head) != null && !old(Grows(h)) ==>
                buckets == old(buckets) && Raised(old(buckets[..]), h.hashv % numBuckets, buckets[..])
    {
      hide And, BucketIndex, TableOk, GrowthStats, HashValue, AppOk, Pow2, Valid, Members, GrowthOk, Raised;
      ValidElim();
      GrowsIff(h);
      LinkLast(h);
      assert appOrder[..|appOrder| - 1] == old(appOrder);
      TableIsPow2(old(appOrder));
      var bkt := BucketIndex(h.hashv, numBuckets);
      BucketIndexInRange(h.hashv, numBuckets, log2NumBuckets);
      label linked:
      AddToBkt(bkt, h);
      AppOkKept@linked();
      ValidIntro();
    }

    lemma GrowsIff(h: Handle<V>)
      requires Valid()
      ensures head == null ==> !Grows(h)
      ensures head != null ==> numBuckets >= 1 && buckets.Length == numBuckets
      ensures head != null ==>
                var b := h.hashv % numBuckets;
                && b == BucketIndex(h.hashv, numBuckets)
                && (Grows(h) <==> !noexpand && buckets[b].count + 1 >= (buckets[b].expandMult + 1) * 10)
    {
      if head != null {
        TableIsPow2(appOrder);
        BucketIndexInRange(h.hashv, numBuckets, log2NumBuckets);
      }
      hide AppOk, TableOk, GrowthOk, BucketIndex;
    }

    /**
     * Through any history, a table has doubled once for each recorded growth, and
     * growth has stopped exactly if two in a row left more than half of the items past
     * the ideal length.
     */
    lemma NoExpandIff()
      requires Valid() && head != null
      ensures noexpand <==> TwoInARow(growths)
      ensures numBuckets == 32 * Pow2(|growths|)
    {
      FilledElim();
      hide Valid, AppOk, TableOk;
    }

    lemma ValidElim()
      requires Valid()
      ensures this in Repr && buckets in Repr && Members(appOrder) <= Repr
      ensures forall x :: x in Members(appOrder) <==> x in appOrder
    {
    }

    lemma ValidIntro()
      requires this in Repr && buckets in Repr && Members(appOrder) <= Repr
      requires head != null && AppOk() && TableOk(appOrder) && GrowthOk()
      ensures Valid()
    {
      assert forall h :: h in appOrder ==> h in Members(appOrder);
    }

    lemma TableIsPow2(items: seq<Handle<V>>)
      requires TableOk(items)
      ensures numBuckets == Pow2(log2NumBuckets) == buckets.Length
    {
    }

    // The application-order half of HASH_DELETE when other items remain.
    method UnlinkApp(h: Handle<V>, ghost k: nat)
      requires AppOk() && k < |appOrder| && appOrder[k] == h && |appOrder| >= 2
      modifies this`head, this`tail, this`numItems, this`appOrder, Members(appOrder)`next, Members(appOrder)`prev
      ensures appOrder == DropAt(old(appOrder), k) && h !in appOrder
      ensures AppOk()
    {
      hide HashValue;
      assert h.next == if k + 1 < |appOrder| then appOrder[k + 1] else null;
      assert h.prev == if k > 0 then appOrder[k - 1] else null;
      AppOnlyAt(appOrder, k);
      if h == tail {
        tail := h.prev;
      }
      if h.prev == null {
        head := h.next;
      }
      UnlinkNeighbours(h, appOrder, k);
      appOrder := DropAt(appOrder, k);
      numItems := numItems - 1;
    }

    // HASH_DELETE; deleting the last item frees the table. The item is no longer
    // part of the index, and can be added again.
    method Delete(h: Handle<V>) returns (ghost k: nat)
      requires Valid() && h in appOrder
      modifies Repr
      ensures Valid() && Repr == old(Repr) - {h}
      ensures k < |old(appOrder)| && old(appOrder)[k] == h
      ensures appOrder == DropAt(old(appOrder), k)
      ensures appOrder != [] ==>
                && buckets == old(buckets) && numBuckets == old(numBuckets) && growths == old(growths)
                && noexpand == old(noexpand) && ineffExpands == old(ineffExpands)
                && Raised(buckets[..], h.hashv % numBuckets, old(buckets[..]))
    {
      hide Valid, HashValue, AppOk, TableOk, Members, GrowthOk, Raised;
      k := AppIndex(h);
      ValidElim();
      FilledElim();
      if h.prev == null && h.next == null {
        head := null;
        appOrder := [];
        Repr := Repr - {h};
        EmptyIntro();
      } else {
        DeleteAmong(h, k);
        Repr := Repr - {h};
        ValidIntro();
      }
    }

    lemma EmptyIntro()
      requires this in Repr && buckets in Repr && head == null && appOrder == []
      ensures Valid()
    {
    }

    // HASH_DELETE when other items remain.
    method DeleteAmong(h: Handle<V>, ghost k: nat)
      requires AppOk() && TableOk(appOrder) && k < |appOrder| && appOrder[k] == h && |appOrder| >= 2
      modifies this`head, this`tail, this`numItems, this`appOrder, this`chains, buckets
      modifies Members(appOrder)`next, Members(appOrder)`prev, Members(appOrder)`hhNext, Members(appOrder)`hhPrev
      ensures appOrder == DropAt(old(appOrder), k) && h !in Members(appOrder)
      ensures Members(appOrder) <= old(Members(appOrder))
      ensures AppOk() && TableOk(appOrder) && head != null
      ensures Raised(buckets[..], h.hashv % numBuckets, old(buckets[..]))
    {
      hide HashValue, AppOk, Holds;
      ghost var items := Members(appOrder);
      UnlinkApp(h, k);
      label unlinked:
      BucketIndexInRange(h.hashv, numBuckets, log2NumBuckets);
      var bkt := BucketIndex(h.hashv, numBuckets);
      chains := DelInBkt(buckets, chains, items, bkt, h);
      AppOkKept@unlinked();
      assert items - {h} == Members(appOrder);
      AppElim();
    }

    // An item is alone exactly when it has no neighbour.
    lemma AppIndex(h: Handle<V>) returns (k: nat)
      requires Valid() && h in appOrder
      ensures k < |appOrder| && appOrder[k] == h
      ensures h.prev == null && h.next == null <==> |appOrder| == 1
      ensures AppOk()
    {
      k :| k < |appOrder| && appOrder[k] == h;
      assert h.next == if k + 1 < |appOrder| then appOrder[k + 1] else null;
      assert h.prev == if k > 0 then appOrder[k - 1] else null;
    }

    // HASH_SRT: sort the application order in place.
    method Sort(cmp: (Handle<V>, Handle<V>) -> int)
      requires Valid()
      modifies this`head, this`tail, this`appOrder, Members(appOrder)`next, Members(appOrder)`prev
      ensures Valid()
      ensures appOrder == Sorting.BottomUp(old(appOrder), 1, cmp)
      ensures Sorting.PreorderOn(cmp, Members(old(appOrder))) ==> Sorting.StablySorted(old(appOrder), appOrder, cmp)
    {
      hide TableOk, AppOk, AppLinked, HashValue, Sorting.BottomUp, Sorting.PreorderOn, Sorting.StablySorted;
      if Sorting.PreorderOn(cmp, Members(appOrder)) {
        Sorting.BottomUpIsStable(appOrder, cmp);
      }
      if head == null {
        Sorting.BottomUpOfNothing<Handle<V>>(cmp);
        return;
      }
      SortItems(cmp);
    }

    // The sort of a table with items.
    method SortItems(cmp: (Handle<V>, Handle<V>) -> int)
      requires Valid() && head != null
      modifies this`head, this`tail, this`appOrder, Members(appOrder)`next, Members(appOrder)`prev
      ensures Valid()
      ensures appOrder == Sorting.BottomUp(old(appOrder), 1, cmp)
    {
      hide TableOk, AppOk, AppLinked, HashValue, Sorting.BottomUp, Valid, Members, GrowthOk;
      ValidElim();
      FilledElim();
      AppElim();
      ghost var s;
      head, tail, s := SortList(head, cmp, appOrder);
      appOrder := s;
      TableKept();
      AppIntro();
      ValidIntro();
    }

    lemma FilledElim()
      requires Valid() && head != null
      ensures AppOk() && TableOk(appOrder) && GrowthOk()
    {
    }

    lemma AppElim()
      requires AppOk()
      ensures appOrder != [] && head == appOrder[0] && tail == appOrder[|appOrder| - 1] && numItems == |appOrder|
      ensures AppLinked(appOrder)
      ensures forall h :: h in Members(appOrder) ==> h.hashv == HashValue(hash, h.key)
    {
    }

    lemma AppIntro()
      requires appOrder != [] && head == appOrder[0] && tail == appOrder[|appOrder| - 1] && numItems == |appOrder|
      requires AppLinked(appOrder)
      requires forall h :: h in Members(appOrder) ==> h.hashv == HashValue(hash, h.key)
      ensures AppOk()
    {
    }

    twostate lemma TableKept()
      requires old(TableOk(appOrder)) && Members(appOrder) == Members(old(appOrder))
      requires numBuckets == old(numBuckets) && log2NumBuckets == old(log2NumBuckets)
      requires buckets == old(buckets) && chains == old(chains) && unchanged(buckets)
      requires forall h :: h in Members(appOrder) ==> h.hhNext == old(h.hhNext) && h.hhPrev == old(h.hhPrev)
      ensures TableOk(appOrder)
    {
    }

    // The forward links spell out these chains and this application order; an
    // index of any other kind would send HASH_FSCK round in circles.
    ghost predicate Spells(cs: seq<seq<Handle<V>>>, order: seq<Handle<V>>)
      reads this, buckets, Nodes(cs)`hhNext, Members(order)`next
    {
      && numBuckets == buckets.Length == |cs|
      && (forall b :: 0 <= b < |cs| ==> NextLinked(cs[b]) && buckets[b].head == HandleAt(cs[b], 0))
      && AppNextLinked(order) && head == HandleAt(order, 0)
    }

    // Chain b is linked backwards as well and has the length its bucket says.
    ghost predicate ChainConsistent(cs: seq<seq<Handle<V>>>, b: nat)
      requires b < |cs| == buckets.Length
      reads this`buckets, buckets, Nodes(cs)`hhPrev, Nodes(cs)`hhNext
    {
      ChainLinked(cs[b]) && buckets[b].count == |cs[b]|
    }

    // What HASH_FSCK finds out.
    ghost predicate Consistent(cs: seq<seq<Handle<V>>>, order: seq<Handle<V>>)
      requires |cs| == buckets.Length
      reads this, buckets, Nodes(cs)`hhNext, Nodes(cs)`hhPrev, Members(order)`next, Members(order)`prev
    {
      && (forall b :: 0 <= b < |cs| ==> ChainConsistent(cs, b))
      && TotalLength(cs) == numItems == |order| && AppLinked(order)
    }

    // HASH_FSCK recounts each chain and the application order and follows every
    // back pointer. It looks at neither the hashes nor the tail.
    method Fsck(ghost cs: seq<seq<Handle<V>>>, ghost order: seq<Handle<V>>) returns (ok: bool)
      requires head != null ==> Spells(cs, order)
      ensures ok <==> head == null || Consistent(cs, order)
    {
      ok := true;
      if head != null {
        hide Consistent, ChainConsistent;
        var count := 0;
        for b := 0 to numBuckets
          invariant count == TotalLength(cs[..b])
          invariant ok <==> forall i: nat :: i < b ==> ChainConsistent(cs, i)
        {
          label before:
          var good;
          good, count := CheckBucket(cs, order, b, count);
          assert forall i: nat :: i < b ==> (ChainConsistent(cs, i) <==> old@before(ChainConsistent(cs, i)));
          ok := ok && good;
        }
        assert cs[..numBuckets] == cs;
        ok := ok && count == numItems;
        label counted:
        var n, good := CheckAppOrder(head, order);
        assert forall i: nat :: i < |cs| ==> (ChainConsistent(cs, i) <==> old@counted(ChainConsistent(cs, i)));
        ok := ok && good && n == numItems;
        ConsistentIff(cs, order);
      }
    }

    // One bucket of HASH_FSCK.
    method CheckBucket(ghost cs: seq<seq<Handle<V>>>, ghost order: seq<Handle<V>>, b: nat, count: nat)
      returns (good: bool, count': nat)
      requires Spells(cs, order) && b < numBuckets && count == TotalLength(cs[..b])
      ensures good <==> ChainConsistent(cs, b)
      ensures count' == TotalLength(cs[..b + 1])
    {
      var n, linked := CheckChain(buckets[b].head, cs[b]);
      good := linked && buckets[b].count == n;
      count' := count + n;
      TotalLengthSnoc(cs, b);
    }

    lemma ConsistentIff(cs: seq<seq<Handle<V>>>, order: seq<Handle<V>>)
      requires |cs| == buckets.Length
      ensures Consistent(cs, order) <==>
                && (forall b: nat :: b < |cs| ==> ChainConsistent(cs, b))
                && TotalLength(cs) == numItems == |order| && AppLinked(order)
    {
      hide ChainConsistent;
    }

    /**
     * HASH_FSCK accepts every valid index.
     */
    lemma ValidIsConsistent()
      requires Valid() && head != null
      ensures Spells(chains, appOrder) && Consistent(chains, appOrder)
    {
      hide And, BucketIndex, HashValue;
      forall b: nat | b < numBuckets
        ensures ChainConsistent(chains, b) && NextLinked(chains[b]) && buckets[b].head == HandleAt(chains[b], 0)
      {
        assert BucketOk(buckets[b], chains[b]);
      }
      CountsAgree();
    }

    // The chains together have as many nodes as the application order.
    lemma CountsAgree()
      requires Valid() && head != null
      ensures TotalLength(chains) == numItems == |appOrder|
    {
      hide And, BucketIndex, HashValue;
      forall b | 0 <= b < numBuckets
        ensures Injective(chains[b])
      {
        assert BucketOk(buckets[b], chains[b]);
        ChainIsInjective(chains[b]);
      }
      CountChains(chains, Members(appOrder), numBuckets);
      AppLinkedStart(appOrder);
      InjectiveSize(appOrder);
      assert chains[..numBuckets] == chains;
      assert Below(Members(appOrder), numBuckets, numBuckets) == Members(appOrder);
    }

    static lemma SizeOfSum(a: set<Handle<V>>, b: set<Handle<V>>)
      requires a !! b
      ensures |a + b| == |a| + |b|
    {
    }

    // The items of the first n chains.
    static ghost function Below(items: set<Handle<V>>, numBuckets: nat, n: nat): set<Handle<V>>
      requires numBuckets >= 1
    {
      set h | h in items && BucketIndex(h.hashv, numBuckets) < n
    }

    // Every item is in the chain of its bucket, and in no other.
    static ghost predicate Filed(chains: seq<seq<Handle<V>>>, items: set<Handle<V>>) {
      && |chains| >= 1
      && (forall b :: 0 <= b < |chains| ==> forall h :: h in chains[b] ==>
            h in items && BucketIndex(h.hashv, |chains|) == b)
      && (forall h :: h in items ==>
            BucketIndex(h.hashv, |chains|) < |chains| && h in chains[BucketIndex(h.hashv, |chains|)])
    }

    static lemma BelowNext(chains: seq<seq<Handle<V>>>, items: set<Handle<V>>, n: nat)
      requires Filed(chains, items) && 1 <= n <= |chains|
      ensures Below(items, |chains|, n) == Below(items, |chains|, n - 1) + Members(chains[n - 1])
      ensures Below(items, |chains|, n - 1) !! Members(chains[n - 1])
    {
      hide BucketIndex;
    }

    static lemma {:induction false} CountChains(chains: seq<seq<Handle<V>>>, items: set<Handle<V>>, n: nat)
      requires Filed(chains, items) && n <= |chains|
      requires forall b :: 0 <= b < |chains| ==> Injective(chains[b])
      ensures TotalLength(chains[..n]) == |Below(items, |chains|, n)|
    {
      if n == 0 {
        assert chains[..0] == [] && Below(items, |chains|, 0) == {};
      } else {
        CountChains(chains, items, n - 1);
        BelowNext(chains, items, n);
        TotalLengthSnoc(chains, n - 1);
        InjectiveSize(chains[n - 1]);
        hide Below, Members, Injective;
        SizeOfSum(Below(items, |chains|, n - 1), Members(chains[n - 1]));
      }
    }
  }
}
