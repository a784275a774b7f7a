/**
 * The growable ring buffer of tracker_cpp/common/containers/CircularBuffer.cpp.
 * It is a queue of bytes; the read and write positions may equal the capacity.
 */
module RingBuffers {
  newtype uint8 = x: int | 0 <= x < 256

  // ----- the capacity after resize, which is computed in single precision

  const TWO_TO_THE_24 := 16777216.0

  // The nearest integer, ties to even.
  function Nearest(x: real): (n: int)
    ensures x - 0.5 <= n as real <= x + 0.5
    ensures x == x.Floor as real ==> n == x.Floor
  {
    var rest := x - x.Floor as real;
    if rest < 0.5 || (rest == 0.5 && x.Floor % 2 == 0) then x.Floor else x.Floor + 1
  }

  // The single-precision number nearest to x: 24 binary digits are kept, here by
  // scaling x until they stand in front of the point.
  function Single(x: real): (s: real)
    requires x >= 0.5
    ensures x - x / TWO_TO_THE_24 <= s <= x + x / TWO_TO_THE_24
    decreases if x >= TWO_TO_THE_24 then x + TWO_TO_THE_24 else 2.0 * (TWO_TO_THE_24 - x)
  {
    if x >= TWO_TO_THE_24 then 2.0 * Single(x / 2.0)
    else if x < TWO_TO_THE_24 / 2.0 then Single(2.0 * x) / 2.0
    else Nearest(x) as real
  }

  lemma NearestIs(x: real, n: int)
    ensures n == Nearest(x) <==>
              -0.5 <= x - n as real <= 0.5 && (x - n as real == 0.5 || x - n as real == -0.5 ==> n % 2 == 0)
  {
    var f := x.Floor;
    var d := n - f;
    assert n as real == f as real + d as real;
    if d >= 2 {
      assert d as real >= 2.0;
    } else if d <= -1 {
      assert d as real <= -1.0;
    }
  }

  // Between 2^23 and 2^24 the numbers of single precision are the integers, everywhere
  // else a power of two times those: the two laws determine the rounding.
  lemma SingleIs(x: real, n: int)
    requires TWO_TO_THE_24 / 2.0 <= x < TWO_TO_THE_24
    ensures Single(x) == n as real <==>
              -0.5 <= x - n as real <= 0.5 && (x - n as real == 0.5 || x - n as real == -0.5 ==> n % 2 == 0)
  {
    NearestIs(x, n);
    hide Nearest;
  }

  lemma SingleScales(x: real)
    requires x >= 0.5
    ensures Single(2.0 * x) == 2.0 * Single(x)
  {
  }

  lemma {:induction false} SingleOfInt(n: nat)
    requires 1 <= n < 16777216
    ensures Single(n as real) == n as real
    decreases 16777216 - n
  {
    if n < 8388608 {
      SingleOfInt(2 * n);
      assert (2 * n) as real == 2.0 * n as real;
    }
  }

  lemma SingleOfHalf(n: nat)
    requires 1 <= n < 16777216
    ensures Single(n as real / 2.0) == n as real / 2.0
  {
    SingleOfInt(n);
    assert 2.0 * (n as real / 2.0) == n as real;
  }

  // `_capacity * factor`
  function Product(capacity: nat, factor: real): (x: real)
    requires capacity > 0 && factor > 1.0
    ensures x >= 0.0
  {
    var c := Single(capacity as real);
    Single(Scaled(c, factor))
  }

  function Scaled(x: real, factor: real): (y: real)
    requires x >= 0.0 && factor > 1.0
    ensures y == x * factor >= x
  {
    AtLeast(x, factor);
    x * factor
  }

  // Both the capacity and the product are rounded.
  lemma ProductIs(capacity: nat, factor: real, c: real, p: real)
    requires capacity > 0 && factor > 1.0 && c == Single(capacity as real) && c >= 0.0
    requires p == Scaled(c, factor) && p >= 0.5
    ensures Product(capacity, factor) == Single(p)
  {
  }

  // And it is truncated.
  function Grown(capacity: nat, factor: real): (n: nat)
    requires factor > 1.0
    ensures capacity == 0 ==> n == 0
    ensures capacity > 0 ==> n as real <= Product(capacity, factor) < n as real + 1.0
  {
    if capacity == 0 then 0 else Product(capacity, factor).Floor
  }

  lemma AtLeast(x: real, f: real)
    requires x >= 0.0 && f > 1.0
    ensures x * f >= x
  {
    assert x * f - x == x * (f - 1.0);
  }

  /**
   * Growing by a half makes the buffer larger exactly from capacity 2 on, in spite
   * of the rounding, and adds exactly a half as long as the result is below 2^23.
   */
  lemma GrowsByHalf(capacity: nat)
    ensures Grown(capacity, 1.5) > capacity <==> capacity >= 2
    ensures capacity + capacity / 2 < 8388608 ==> Grown(capacity, 1.5) == capacity + capacity / 2
  {
    if capacity + capacity / 2 < 8388608 && capacity > 0 {
      SingleOfInt(capacity);
      SingleOfHalf(3 * capacity);
      assert capacity as real * 1.5 == (3 * capacity) as real / 2.0;
      HalfFloor(3 * capacity);
    } else if capacity > 0 {
      var c := Single(capacity as real);
      assert Single(c * 1.5) >= capacity as real + 1.0;
    }
  }

  lemma HalfFloor(n: nat)
    ensures (n as real / 2.0).Floor == n / 2
  {
    var h := n / 2;
    assert n as real / 2.0 == h as real + (n % 2) as real / 2.0;
  }

  // The text up to the first c and what follows it; all of it if there is none.
  function SplitAtFirst(s: seq<uint8>, c: uint8): (seq<uint8>, seq<uint8>) {
    if s == [] then ([], [])
    else if s[0] == c then ([], s[1..])
    else
      var (a, b) := SplitAtFirst(s[1..], c);
      ([s[0]] + a, b)
  }

  lemma {:induction false} SplitAtIndex(s: seq<uint8>, c: uint8, k: nat)
    requires k <= |s| && c !in s[..k] && (k < |s| ==> s[k] == c)
    ensures SplitAtFirst(s, c) == (s[..k], if k < |s| then s[k + 1..] else [])
  {
    if k > 0 {
      assert s[..k] == [s[0]] + s[1..][..k - 1];
      assert s[1..][..k - 1] == s[..k][1..];
      SplitAtIndex(s[1..], c, k - 1);
    }
  }

  // The queue held by ring b from position r: `size` bytes, wrapping once.
  function View(b: seq<uint8>, r: nat, size: nat): (s: seq<uint8>)
    requires r <= |b| && size <= |b|
    ensures |s| == size
  {
    if r + size <= |b| then b[r..r + size] else b[r..] + b[..r + size - |b|]
  }

  // The byte k places behind position r.
  function QueueAt(b: seq<uint8>, r: nat, k: nat): uint8
    requires r <= |b| && k < |b|
  {
    b[if r + k < |b| then r + k else r + k - |b|]
  }

  lemma ViewAt(b: seq<uint8>, r: nat, size: nat, k: nat)
    requires r <= |b| && size <= |b| && k < size
    ensures View(b, r, size)[k] == QueueAt(b, r, k)
  {
  }

  // Writing data behind the queue appends it.
  lemma ViewAppend(b: seq<uint8>, b': seq<uint8>, r: nat, size: nat, data: seq<uint8>)
    requires |b| == |b'| && r <= |b| && size + |data| <= |b|
    requires forall k :: 0 <= k < size + |data| ==>
               QueueAt(b', r, k) == if k < size then QueueAt(b, r, k) else data[k - size]
    ensures View(b', r, size + |data|) == View(b, r, size) + data
  {
    hide View;
    var v := View(b', r, size + |data|);
    forall k | 0 <= k < size + |data|
      ensures v[k] == (View(b, r, size) + data)[k]
    {
      ViewAt(b', r, size + |data|, k);
      if k < size {
        ViewAt(b, r, size, k);
      }
    }
  }

  // Where write has put its bytes, counted from the read position.
  lemma BytesPlaced(b: seq<uint8>, b': seq<uint8>, r: nat, size: nat, w: nat, data: seq<uint8>)
    requires |b| == |b'| && r <= |b| && w <= |b| && size + |data| <= |b|
    requires w == r + size || w == r + size - |b|
    requires forall j :: 0 <= j < |b| ==>
               b'[j] == if w <= j < w + |data| then data[j - w]
                        else if j < w + |data| - |b| then data[|b| - w + j]
                        else b[j]
    ensures forall k :: 0 <= k < size + |data| ==>
              QueueAt(b', r, k) == if k < size then QueueAt(b, r, k) else data[k - size]
  {
  }

  lemma ViewPieces(b: seq<uint8>, r: nat, n: nat)
    requires r <= |b| && n <= |b|
    ensures View(b, r, n) == if r + n <= |b| then b[r..r + n] else b[r..] + b[..n - (|b| - r)]
  {
  }

  // Moving the read position on by n drops n bytes, which are those copied out.
  lemma ViewDrop(b: seq<uint8>, r: nat, size: nat, n: nat, r': nat)
    requires r <= |b| && size <= |b| && n <= size
    requires r' == if r + n <= |b| then r + n else r + n - |b|
    ensures View(b, r', size - n) == View(b, r, size)[n..]
    ensures View(b, r, size)[..n] == View(b, r, n)
  {
    hide View;
    forall k | 0 <= k < size - n
      ensures View(b, r', size - n)[k] == View(b, r, size)[n..][k]
    {
      ViewAt(b, r', size - n, k);
      ViewAt(b, r, size, n + k);
    }
    forall k | 0 <= k < n
      ensures View(b, r, size)[..n][k] == View(b, r, n)[k]
    {
      ViewAt(b, r, size, k);
      ViewAt(b, r, n, k);
    }
  }

  // The first n bytes of the queue, where they lie in the ring.
  lemma ViewPrefix(b: seq<uint8>, r: nat, size: nat, n: nat)
    requires r <= |b| && size <= |b| && n <= size
    ensures View(b, r, size)[..n] == if r + n <= |b| then b[r..r + n] else b[r..] + b[..n - (|b| - r)]
  {
    ViewPieces(b, r, n);
    ViewDrop(b, r, size, n, if r + n <= |b| then r + n else r + n - |b|);
  }

  // Reading n bytes free of c, and the c behind them if any, splits the queue.
  lemma SplitQueue(b: seq<uint8>, r: nat, size: nat, c: uint8, n: nat, r': nat, size': nat)
    requires r <= |b| && size <= |b| && r' <= |b| && n <= size
    requires c !in View(b, r, size)[..n] && (n < size ==> QueueAt(b, r, n) == c)
    requires size' == if n < size then size - n - 1 else 0
    requires size' > 0 ==> r' == if r + n + 1 <= |b| then r + n + 1 else r + n + 1 - |b|
    ensures SplitAtFirst(View(b, r, size), c) == (View(b, r, size)[..n], View(b, r', size'))
  {
    var v := View(b, r, size);
    if n < size {
      ViewAt(b, r, size, n);
      ViewDrop(b, r, size, n + 1, if r + n + 1 <= |b| then r + n + 1 else r + n + 1 - |b|);
    }
    SplitAtIndex(v, c, n);
    assert View(b, r', size') == if n < size then v[n + 1..] else [];
  }

  // The run of bytes from p on that one loop of readUntil takes, stopping at c or
  // before position stop.
  predicate Run(b: seq<uint8>, p: nat, stop: nat, c: uint8, s: seq<uint8>) {
    p + |s| <= stop <= |b| && s == b[p..p + |s|] && c !in s && (p + |s| < stop ==> b[p + |s|] == c)
  }

  // readUntil over a queue that does not wrap.
  lemma LineInOneRun(b: seq<uint8>, r: nat, w: nat, c: uint8, s: seq<uint8>)
    requires r <= w && Run(b, r, w, c, s)
    ensures var n := if r + |s| < w then |s| + 1 else |s|;
            SplitAtFirst(View(b, r, w - r), c) == (s, View(b, r + n, w - r - n))
  {
    hide View, SplitAtFirst;
    ViewPrefix(b, r, w - r, |s|);
    assert View(b, r, w - r)[..|s|] == s;
    assert r + |s| < w ==> QueueAt(b, r, |s|) == c;
    hide Run, QueueAt;
    var n := if r + |s| < w then |s| + 1 else |s|;
    SplitQueue(b, r, w - r, c, |s|, r + n, w - r - n);
  }

  lemma RunsMeet(b: seq<uint8>, r: nat, w: nat, c: uint8, s: seq<uint8>, t: seq<uint8>)
    requires w < r <= |b| && Run(b, r, |b|, c, s) && r + |s| == |b| && Run(b, 0, w, c, t)
    ensures View(b, r, |b| - r + w)[..|s| + |t|] == s + t && c !in s + t
    ensures |t| < w ==> QueueAt(b, r, |s| + |t|) == c
  {
    hide View;
    ViewPrefix(b, r, |b| - r + w, |s| + |t|);
    assert s == b[r..] && t == b[..|t|];
  }

  // readUntil over a queue that wraps, with no c before the wrap.
  lemma LineInTwoRuns(b: seq<uint8>, r: nat, w: nat, c: uint8, s: seq<uint8>, t: seq<uint8>)
    requires w < r <= |b| && Run(b, r, |b|, c, s) && r + |s| == |b| && Run(b, 0, w, c, t)
    ensures var n := if |t| < w then |t| + 1 else |t|;
            SplitAtFirst(View(b, r, |b| - r + w), c) == (s + t, View(b, n, w - n))
  {
    hide View;
    var size, n := |b| - r + w, |s| + |t|;
    RunsMeet(b, r, w, c, s, t);
    SplitQueue(b, r, size, c, n, if |t| < w then |t| + 1 else w, if |t| < w then w - |t| - 1 else 0);
  }

  // The delimiter before the wrap ends the first part of the split.
  lemma LineBeforeWrap(b: seq<uint8>, r: nat, size: nat, c: uint8, s: seq<uint8>)
    requires r <= |b| && size <= |b| && |b| - r <= size && Run(b, r, |b|, c, s) && r + |s| < |b|
    ensures SplitAtFirst(View(b, r, size), c).0 == s
  {
    ViewPrefix(b, r, size, |s|);
    ViewAt(b, r, size, |s|);
    SplitAtIndex(View(b, r, size), c, |s|);
  }

  function Flatten(chunks: seq<seq<uint8>>): seq<uint8> {
    if chunks == [] then [] else Flatten(chunks[..|chunks| - 1]) + chunks[|chunks| - 1]
  }

  // Where the queue lies in the ring. The outcome of a flush depends on this
  // and on what the two ::write calls return, not on the bytes.
  datatype Layout = Layout(capacity: nat, size: nat, r: nat) {
    predicate Fits() {
      size <= capacity && r <= capacity
    }

    // Whether the bytes run past the end of the array.
    predicate Wrapped() {
      r + size > capacity
    }

    // The bytes of the first ::write of writeToFd.
    function FirstLength(): nat
      requires Fits()
    {
      if Wrapped() then capacity - r else size
    }

    // What the two ::write calls of a flush can return.
    predicate Possible(first: int, second: int)
      requires Fits()
    {
      first <= FirstLength() && second <= size - FirstLength()
    }

    // A flush that sends the first segment whole and the second not.
    predicate Miscounted(first: int, second: int)
      requires Fits()
    {
      Wrapped() && 0 < first == FirstLength() && second < size - first
    }

    // The bytes the descriptor takes.
    function Taken(first: int, second: int): (n: nat)
      requires Fits() && Possible(first, second)
      ensures n <= size
    {
      if first <= 0 then 0
      else if Wrapped() && first == FirstLength() && second > 0 then first + second
      else first
    }

    // What writeToFd returns.
    function Returned(first: int, second: int): int
      requires Fits() && Possible(first, second)
    {
      if Miscounted(first, second) then second
      else if first <= 0 then first
      else Taken(first, second)
    }

    // The layout after writeToFd: an emptied queue starts again at 0, and after a
    // miscounted flush the read position lies in the second segment.
    function Flushed(first: int, second: int): (after: Layout)
      requires Fits() && Possible(first, second)
      ensures after.Fits() && after.capacity == capacity
    {
      var ret := Returned(first, second);
      if ret <= 0 then this
      else if ret == size then Layout(capacity, 0, 0)
      else Layout(capacity, size - ret, if Miscounted(first, second) then second else r + first)
    }

    // The layout after the growth loop, with room for n more bytes: a buffer that
    // grows is unrolled to the front.
    function GrownFor(n: nat): (after: Layout)
      requires Fits() && capacity >= 2
      ensures after.Fits() && after.capacity >= capacity
      ensures after.size == size && n <= after.capacity - size
      ensures after.r == r || after.r == 0
      decreases n + size - capacity
    {
      if n <= capacity - size then this
      else
        GrowsByHalf(capacity);
        Layout(Grown(capacity, 1.5), size, 0).GrownFor(n)
    }
  }

  // The capacity after growing k times by a half.
  function Regrown(capacity: nat, k: nat): nat {
    if k == 0 then capacity else Grown(Regrown(capacity, k - 1), 1.5)
  }

  lemma RegrownZero(capacity: nat)
    ensures Regrown(capacity, 0) == capacity
  {
  }

  lemma {:induction false} RegrownOnce(capacity: nat, k: nat)
    ensures Regrown(Grown(capacity, 1.5), k) == Regrown(capacity, k + 1)
  {
    hide Grown;
    if k > 0 {
      RegrownOnce(capacity, k - 1);
    }
  }

  // The k-th capacity is the first with room for n bytes behind the size queued.
  ghost predicate FirstRoom(capacity: nat, size: nat, n: nat, k: nat) {
    n <= Regrown(capacity, k) - size && forall j: nat :: j < k ==> n > Regrown(capacity, j) - size
  }

  lemma FirstRoomLater(capacity: nat, size: nat, n: nat, k: nat)
    requires n > capacity - size && FirstRoom(Grown(capacity, 1.5), size, n, k)
    ensures FirstRoom(capacity, size, n, k + 1)
  {
    hide Grown;
    RegrownOnce(capacity, k);
    forall j: nat | j < k + 1
      ensures n > Regrown(capacity, j) - size
    {
      if j > 0 {
        RegrownOnce(capacity, j - 1);
      }
    }
  }

  lemma GrowOnce(l: Layout, n: nat)
    requires l.Fits() && l.capacity >= 2
    ensures n <= l.capacity - l.size ==> l.GrownFor(n) == l && FirstRoom(l.capacity, l.size, n, 0)
    ensures n > l.capacity - l.size ==>
              var c := Grown(l.capacity, 1.5);
              c > l.capacity && l.GrownFor(n) == Layout(c, l.size, 0).GrownFor(n)
  {
    if n > l.capacity - l.size {
      GrowsByHalf(l.capacity);
    }
    hide Grown;
  }

  // The loop grows as often as it must, and only a buffer that grows is unrolled.
  lemma {:induction false} GrownForIs(l: Layout, n: nat) returns (k: nat)
    requires l.Fits() && l.capacity >= 2
    ensures FirstRoom(l.capacity, l.size, n, k)
    ensures l.GrownFor(n) == Layout(Regrown(l.capacity, k), l.size, if k == 0 then l.r else 0)
    decreases n + l.size - l.capacity
  {
    hide Grown, FirstRoom, Regrown, Layout.GrownFor, Layout.Wrapped, Single, Nearest;
    k := 0;
    GrowOnce(l, n);
    RegrownZero(l.capacity);
    if n > l.capacity - l.size {
      var c := Grown(l.capacity, 1.5);
      var more := GrownForIs(Layout(c, l.size, 0), n);
      k := more + 1;
      RegrownOnce(l.capacity, more);
      FirstRoomLater(l.capacity, l.size, n, more);
    }
  }

  // The text before the first c.
  function UpTo(s: seq<uint8>, c: uint8): (p: seq<uint8>)
    ensures |p| <= |s|
  {
    SplitLeads(s, c);
    SplitAtFirst(s, c).0
  }

  lemma {:induction false} UpToIs(s: seq<uint8>, c: uint8, p: seq<uint8>)
    ensures p == UpTo(s, c) <==> p <= s && c !in p && (|p| < |s| ==> s[|p|] == c)
  {
    if p <= s && c !in p && (|p| < |s| ==> s[|p|] == c) {
      assert s[..|p|] == p;
      SplitAtIndex(s, c, |p|);
    }
    SplitLeads(s, c);
  }

  lemma {:induction false} SplitLeads(s: seq<uint8>, c: uint8)
    ensures var p := SplitAtFirst(s, c).0; p <= s && c !in p && (|p| < |s| ==> s[|p|] == c)
  {
    if s != [] && s[0] != c {
      SplitLeads(s[1..], c);
      assert s == [s[0]] + s[1..];
    }
  }

  lemma RunIsUpTo(b: seq<uint8>, p: nat, stop: nat, c: uint8, s: seq<uint8>)
    requires Run(b, p, stop, c, s)
    ensures p <= stop <= |b| && s == UpTo(b[p..stop], c)
  {
    UpToIs(b[p..stop], c, s);
    assert b[p..stop][..|s|] == s;
  }

  class CircularBuffer {
    var capacity: nat
    var size: nat
    var r: nat
    var w: nat
    var buf: array<uint8>

    ghost predicate InBounds()
      reads this
    {
      buf.Length == capacity && size <= capacity && r <= capacity && w <= capacity
    }

    ghost predicate Valid()
      reads this
    {
      InBounds() && (w == r + size || w == r + size - capacity)
    }

    function AsLayout(): Layout
      reads this
    {
      Layout(capacity, size, r)
    }

    ghost function Contents(): (s: seq<uint8>)
      requires InBounds()
      reads this, buf
      ensures |s| == size
    {
      View(buf[..], r, size)
    }

    constructor (capacity: nat)
      ensures Valid() && fresh(buf) && AsLayout() == Layout(capacity, 0, 0) && Contents() == []
    {
      this.capacity, size, r, w := capacity, 0, 0, 0;
      buf := new uint8[capacity](_ => 0);
    }

    function RemainingSpace(): nat
      requires size <= capacity
      reads this
    {
      capacity - size
    }

    // The copying of write: data goes behind position w, wrapping once.
    method CopyIn(data: seq<uint8>) returns (w': nat)
      requires InBounds() && |data| <= capacity
      modifies buf
      ensures w' == if w + |data| <= capacity then w + |data| else w + |data| - capacity
      ensures forall j :: 0 <= j < capacity ==>
                buf[..][j] == if w <= j < w + |data| then data[j - w]
                              else if j < w + |data| - capacity then data[capacity - w + j]
                              else old(buf[..])[j]
    {
      if w + |data| <= capacity {
        forall i | 0 <= i < |data| {
          buf[w + i] := data[i];
        }
        w' := w + |data|;
      } else {
        var cut := capacity - w;
        forall i | 0 <= i < cut {
          buf[w + i] := data[i];
        }
        forall i | 0 <= i < |data| - cut {
          buf[i] := data[cut + i];
        }
        w' := |data| - cut;
      }
    }

    // !ok stands for abort().
    method Write(data: seq<uint8>) returns (ok: bool)
      requires InBounds()
      modifies this`size, this`w, buf
      ensures InBounds() && ok == (|data| <= capacity - old(size))
      ensures size == old(size) + if ok then |data| else 0
      ensures old(Valid()) ==> Valid() && Contents() == old(Contents()) + if ok then data else []
    {
      ok := |data| <= RemainingSpace();
      if !ok {
        return;
      }
      hide View, QueueAt;
      ghost var before := buf[..];
      w := CopyIn(data);
      if old(Valid()) {
        BytesPlaced(before, buf[..], r, size, old(w), data);
        ViewAppend(before, buf[..], r, size, data);
      }
      size := size + |data|;
    }

    // The copying of read.
    method CopyOut(n: nat) returns (data: seq<uint8>, r': nat)
      requires InBounds() && n <= size
      ensures data == View(buf[..], r, n)
      ensures r' == if r + n <= capacity then r + n else r + n - capacity
    {
      ViewPieces(buf[..], r, n);
      hide View;
      if r + n <= capacity {
        data, r' := buf[r..r + n], r + n;
      } else {
        var cut := capacity - r;
        data, r' := buf[r..r + cut] + buf[..n - cut], n - cut;
      }
    }

    method Read(n: nat) returns (ok: bool, data: seq<uint8>)
      requires InBounds()
      modifies this`size, this`r
      ensures InBounds() && (old(Valid()) ==> Valid())
      ensures ok == (n <= old(size))
      ensures ok ==> data == old(Contents())[..n] && Contents() == old(Contents())[n..]
      ensures !ok ==> Contents() == old(Contents())
    {
      ok, data := n <= size, [];
      if !ok {
        return;
      }
      hide View;
      data, r := CopyOut(n);
      ViewDrop(buf[..], old(r), size, n, r);
      size := size - n;
    }

    // peek: at most the whole contents.
    method Peek(n: nat) returns (data: seq<uint8>)
      requires InBounds()
      ensures data == Contents()[..if n <= size then n else size]
      decreases if n <= size then 0 else 1
    {
      if n <= size {
        ViewPrefix(buf[..], r, size, n);
        hide View;
        if r + n < capacity {
          data := buf[r..r + n];
        } else {
          var cut := capacity - r;
          data := buf[r..r + cut] + buf[..n - cut];
        }
      } else {
        data := Peek(size);
      }
    }

    // The queue is kept if it fits in the new array.
    method Resize(factor: real)
      requires InBounds()
      modifies this
      ensures AsLayout() == if factor <= 1.0 then old(AsLayout()) else Layout(Grown(old(capacity), factor), size, 0)
      ensures size == old(size) && buf.Length == capacity && (buf == old(buf) || fresh(buf))
      ensures size <= capacity ==>
                InBounds() && Contents() == old(Contents()) && (factor > 1.0 || old(Valid()) ==> Valid())
    {
      if factor <= 1.0 {
        return;
      }
      hide View, Grown;
      var oldSize, newCap := size, Grown(capacity, factor);
      var nbuf := new uint8[newCap](_ => 0);
      var ok, data := Read(if oldSize < newCap then oldSize else newCap);
      forall i | 0 <= i < |data| {
        nbuf[i] := data[i];
      }
      r, w := 0, oldSize;
      buf := nbuf;
      size := oldSize;
      capacity := newCap;
      if oldSize <= newCap {
        ViewFromZero(buf[..], data);
      }
    }

    static lemma ViewFromZero(b: seq<uint8>, data: seq<uint8>)
      requires |data| <= |b| && forall i :: 0 <= i < |data| ==> b[i] == data[i]
      ensures View(b, 0, |data|) == data
    {
    }

    // The growth loops of ClientSocket: they end, with room for n more bytes.
    method GrowFor(n: nat)
      requires InBounds() && capacity >= 2
      modifies this
      ensures InBounds() && (old(Valid()) ==> Valid())
      ensures Contents() == old(Contents())
      ensures AsLayout() == old(AsLayout()).GrownFor(n)
      ensures buf == old(buf) || fresh(buf)
    {
      while n > RemainingSpace()
        invariant InBounds() && (old(Valid()) ==> Valid())
        invariant Contents() == old(Contents())
        invariant capacity >= 2 && AsLayout().GrownFor(n) == old(AsLayout()).GrownFor(n)
        invariant buf == old(buf) || fresh(buf)
        decreases n + size - capacity
      {
        GrowsByHalf(capacity);
        Resize(1.5);
      }
    }

    // The loop of ClientSocket::eventHandler: every chunk read is appended.
    method Absorb(chunks: seq<seq<uint8>>)
      requires Valid() && capacity >= 2
      modifies this, buf
      ensures Valid() && Contents() == old(Contents()) + Flatten(chunks)
    {
      hide View;
      for i := 0 to |chunks|
        invariant Valid() && capacity >= 2 && (buf == old(buf) || fresh(buf))
        invariant Contents() == old(Contents()) + Flatten(chunks[..i])
      {
        GrowFor(|chunks[i]|);
        var ok := Write(chunks[i]);
        assert chunks[..i + 1][..i] == chunks[..i];
      }
      assert chunks[..|chunks|] == chunks;
    }

    // contains is wrong exactly for a full buffer whose positions coincide.
    method Contains(c: uint8) returns (found: bool)
      requires Valid()
      ensures found == (c in Contents() && !(r == w && size > 0))
    {
      found := false;
      if r < w {
        for i := r to w
          invariant forall j :: r <= j < i ==> buf[j] != c
        {
          if buf[i] == c {
            assert Contents()[i - r] == c;
            return true;
          }
        }
      } else if r > w {
        for i := r to capacity
          invariant forall j :: r <= j < i ==> buf[j] != c
        {
          if buf[i] == c {
            assert Contents()[i - r] == c;
            return true;
          }
        }
        for i := 0 to w
          invariant forall j :: 0 <= j < i ==> buf[j] != c
        {
          if buf[i] == c {
            assert Contents()[i + capacity - r] == c;
            return true;
          }
        }
      }
    }

    method WriteToFd(first: int, second: int) returns (ret: int, ghost delivered: seq<uint8>)
      requires InBounds() && AsLayout().Possible(first, second)
      modifies this`size, this`r, this`w
      ensures InBounds()
      ensures ret == old(AsLayout()).Returned(first, second)
      ensures AsLayout() == old(AsLayout()).Flushed(first, second)
      ensures var cut := old(capacity) - old(r);
              if first <= 0 || (old(r + size > capacity) && first == cut && second <= 0) then
                r == old(r) && size == old(size) && w == old(w)
              else if !(old(r + size > capacity) && first == cut) && first < old(size) then
                r == old(r) + first && size == old(size) - first && w == old(w)
              else if old(r + size > capacity) && second < old(size) - cut then
                r == second && size == old(size) - second && w == old(w)
              else r == 0 && size == 0 && w == 0
      ensures delivered == old(Contents())[..old(AsLayout()).Taken(first, second)]
      ensures delivered + Contents() == old(Contents()) <==> !old(AsLayout()).Miscounted(first, second)
      ensures old(Valid()) ==> (Valid() <==> !(old(AsLayout()).Miscounted(first, second) && second > 0))
    {
      hide View;
      FlushedQueue(buf[..], AsLayout(), first, second);
      delivered := Contents()[..AsLayout().Taken(first, second)];
      if r + size <= capacity {
        if first <= 0 {
          return first, delivered;
        } else if first < size {
          r, size := r + first, size - first;
          return first, delivered;
        }
      } else {
        var cut := capacity - r;
        if first <= 0 {
          return first, delivered;
        } else if first < cut {
          r, size := r + first, size - first;
          return first, delivered;
        }
        if second <= 0 {
          return second, delivered;
        } else if second < size - cut {
          r, size := second, size - second;
          return second, delivered;
        }
      }
      ret := size;
      size, r, w := 0, 0, 0;
    }

    // The bytes taken and those left are the queue, unless the flush was miscounted.
    static lemma FlushedQueue(b: seq<uint8>, l: Layout, first: int, second: int)
      requires l.Fits() && l.capacity == |b| && l.Possible(first, second)
      ensures var v, l' := View(b, l.r, l.size), l.Flushed(first, second);
              v[..l.Taken(first, second)] + View(b, l'.r, l'.size) == v <==> !l.Miscounted(first, second)
    {
      hide View;
      if !l.Miscounted(first, second) && first > 0 {
        var n := l.Taken(first, second);
        ViewDrop(b, l.r, l.size, n, if l.r + n <= |b| then l.r + n else l.r + n - |b|);
      }
    }

    // One loop of readUntil.
    method TakeUpTo(stop: nat, c: uint8) returns (s: seq<uint8>)
      requires InBounds() && r <= stop <= capacity && stop - r <= size
      modifies this`size, this`r
      ensures InBounds() && old(r) <= r <= stop && size == old(size) - (r - old(r))
      ensures r == old(r) + |s| && Run(buf[..], old(r), stop, c, s)
    {
      s := [];
      while r < stop && buf[r] != c
        invariant InBounds() && old(r) <= r <= stop && size == old(size) - (r - old(r))
        invariant s == buf[old(r)..r] && c !in s
      {
        s := s + [buf[r]];
        r := r + 1;
        size := size - 1;
      }
    }

    // When readUntil works: no delimiter lies before the wrap.
    ghost predicate LineAhead(c: uint8)
      requires InBounds()
      reads this, buf
    {
      || r < w
      || size == 0
      || (r > w && c !in buf[r..])
      || (r == w < capacity && buf[r] == c)
    }

    // What readUntil leaves, given the queue v and the text s it has returned.
    ghost predicate Split(v: seq<uint8>, s: seq<uint8>, c: uint8)
      reads this, buf
    {
      Valid() && (s, Contents()) == SplitAtFirst(v, c)
    }

    // The two loops of readUntil and the step over the delimiter.
    method ReadRuns(c: uint8) returns (before: seq<uint8>, t: seq<uint8>)
      requires Valid()
      modifies this`size, this`r
      ensures old(r) > w ==> Run(buf[..], old(r), capacity, c, before)
      ensures old(r) <= w ==> before == []
      ensures Run(buf[..], if old(r) > w then 0 else old(r), w, c, t)
      ensures |before| + |t| <= old(size)
      ensures var left := old(size) - |before| - |t|;
              var at := if old(r) > w then |t| else old(r) + |t|;
              if left > 0 then r == at + 1 && size == left - 1 else r == at && size == 0
      ensures before == if old(r) > w then UpTo(buf[old(r)..], c) else []
      ensures t == UpTo(if old(r) > w then buf[..w] else buf[old(r)..w], c)
    {
      hide Run, UpTo;
      before := [];
      if r > w {
        before := TakeUpTo(capacity, c);
        RunIsUpTo(buf[..], old(r), capacity, c, before);
        assert buf[..][old(r)..capacity] == buf[old(r)..];
        r := 0;
      }
      ghost var from := r;
      t := TakeUpTo(w, c);
      RunIsUpTo(buf[..], from, w, c, t);
      assert buf[..][from..w] == if old(r) > w then buf[..w] else buf[old(r)..w];
      if size > 0 {
        r, size := r + 1, size - 1;
      }
    }

    method ReadUntil(c: uint8) returns (s: seq<uint8>)
      requires Valid()
      modifies this`size, this`r
      ensures Split(old(Contents()), s, c) <==> old(LineAhead(c))
      ensures s == if old(r) > w then UpTo(buf[old(r)..], c) + UpTo(buf[..w], c) else UpTo(buf[old(r)..w], c)
      ensures var left := old(size) - |s|;
              var at := if old(r) > w then |UpTo(buf[..w], c)| else old(r) + |s|;
              if left > 0 then r == at + 1 && size == left - 1 else r == at && size == 0
    {
      hide View, SplitAtFirst, Run, UpTo;
      var before, t := ReadRuns(c);
      s := before + t;
      LineRead(buf[..], old(r), w, old(size), c, before, t, r, size);
    }

    // What the two loops have read is the line, exactly when it lies ahead.
    static lemma LineRead(b: seq<uint8>, r: nat, w: nat, size: nat, c: uint8, before: seq<uint8>, t: seq<uint8>,
                          r': nat, size': nat)
      requires r <= |b| && w <= |b| && size <= |b| && (w == r + size || w == r + size - |b|)
      requires if r > w then Run(b, r, |b|, c, before) else before == []
      requires Run(b, if r > w then 0 else r, w, c, t) && |before| + |t| <= size
      requires var left, at := size - |before| - |t|, if r > w then |t| else r + |t|;
               if left > 0 then r' == at + 1 && size' == left - 1 else r' == at && size' == 0
      ensures (&& r' <= |b| && (w == r' + size' || w == r' + size' - |b|)
               && (before + t, View(b, r', size')) == SplitAtFirst(View(b, r, size), c))
              <==> r < w || size == 0 || (r > w && c !in b[r..]) || (r == w < |b| && b[r] == c)
    {
      hide View, SplitAtFirst, Run;
      if r <= w {
        assert before + t == t;
        RunFits(b, r, w, c, t);
        if r < w || size == 0 {
          LineInOneRun(b, r, w, c, t);
        } else if r < |b| {
          FullAtFront(b, r, c);
        }
      } else {
        WrappedLine(b, r, w, c, before, t);
      }
    }

    // The case of a queue that wraps.
    static lemma WrappedLine(b: seq<uint8>, r: nat, w: nat, c: uint8, before: seq<uint8>, t: seq<uint8>)
      requires w < r <= |b| && Run(b, r, |b|, c, before) && Run(b, 0, w, c, t)
      ensures |before| <= |b| - r && |t| <= w
      ensures r + |before| < |b| <==> c in b[r..]
      ensures var v := View(b, r, |b| - r + w);
              var n := if |t| < w then |t| + 1 else |t|;
              if r + |before| < |b| then SplitAtFirst(v, c).0 == before && |before| < |v|
              else SplitAtFirst(v, c) == (before + t, View(b, n, w - n))
    {
      hide View, SplitAtFirst, Run;
      RunStops(b, r, |b|, c, before);
      RunFits(b, r, |b|, c, before);
      RunFits(b, 0, w, c, t);
      assert b[r..|b|] == b[r..];
      if r + |before| < |b| {
        LineBeforeWrap(b, r, |b| - r + w, c, before);
      } else {
        LineInTwoRuns(b, r, w, c, before, t);
      }
    }

    static lemma RunFits(b: seq<uint8>, p: nat, stop: nat, c: uint8, s: seq<uint8>)
      requires Run(b, p, stop, c, s)
      ensures p + |s| <= stop <= |b|
    {
    }

    // readUntil over a full buffer whose positions coincide.
    static lemma FullAtFront(b: seq<uint8>, r: nat, c: uint8)
      requires r < |b|
      ensures b[r] == c ==> SplitAtFirst(View(b, r, |b|), c) == ([], View(b, r + 1, |b| - 1))
      ensures b[r] != c ==> SplitAtFirst(View(b, r, |b|), c).0 != []
    {
      ViewAt(b, r, |b|, 0);
      if b[r] == c {
        ViewDrop(b, r, |b|, 1, r + 1);
      }
    }

    static lemma RunStops(b: seq<uint8>, p: nat, stop: nat, c: uint8, s: seq<uint8>)
      requires Run(b, p, stop, c, s)
      ensures p + |s| < stop <==> c in b[p..stop]
    {
      if p + |s| < stop {
        assert b[p..stop][|s|] == c;
      }
    }
  }
}
