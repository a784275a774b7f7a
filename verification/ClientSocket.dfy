/**
 * The buffered socket of the C++ tracker: ClientSocket::write queues bytes and
 * arms a one-shot writer, SocketWriter::eventHandler flushes the queue when the
 * descriptor is writable (tracker_cpp/common/network).
 */
module ClientSockets {
  import opened RingBuffers

  const SOCK_BUF_SIZE := 32768

  // A call of write, or a writable event in which the two ::write calls of a
  // flush return at most first and second (negative for an error, errno being
  // EAGAIN or EWOULDBLOCK when again holds).
  datatype Action = Write(data: seq<uint8>) | Writable(first: int, second: int, again: bool)

  // All bytes written by a run.
  function Written(run: seq<Action>): seq<uint8> {
    if run == [] then []
    else
      var last := run[|run| - 1];
      Written(run[..|run| - 1]) + if last.Write? then last.data else []
  }

  function AtMost(limit: int, n: nat): (m: int)
    ensures m <= n
  {
    if limit < n then limit else n
  }

  /**
   * What a run depends on: where the queue lies, and the flags of the writer. No
   * byte written matters for it.
   */
  datatype Sock = Sock(
    layout: Layout,
    hasWriter: bool,      // _sockWriter != NULL
    registered: bool,     // the writer is known to the event manager
    armed: bool           // _armed of the writer
  ) {
    predicate Good() {
      layout.Fits() && layout.capacity >= 2
    }

    // An event reaches the writer.
    predicate Listens() {
      registered && armed
    }

    // There are bytes to send, and no event will come to send them.
    predicate Stalled() {
      registered && layout.size > 0 && !armed
    }

    // The writer after the flush of an event that has returned ret.
    function AfterFlush(layout': Layout, ret: int, again: bool): Sock {
      Sock(layout', hasWriter, !(ret == 0 || (ret < 0 && !again)), 0 < ret < layout.size)
    }

    // One event of the writer.
    function Event(first: int, second: int, again: bool): (after: Sock)
      requires Good() && layout.Possible(first, second)
      ensures after.Good() && after.layout.capacity == layout.capacity
    {
      if layout.size == 0 then this.(armed := false)
      else AfterFlush(layout.Flushed(first, second), layout.Returned(first, second), again)
    }

    // One call of write with n bytes.
    function Queue(n: nat): (after: Sock)
      requires Good()
      ensures after.Good()
    {
      if n == 0 then this
      else
        var grown := layout.GrownFor(n);
        Sock(grown.(size := grown.size + n), true, registered || !hasWriter, true)
    }

    function Step(a: Action): (after: Sock)
      requires Good()
      ensures after.Good()
    {
      match a
      case Write(data) => Queue(|data|)
      case Writable(first, second, again) =>
        if Listens() then Event(First(a), Second(a), again) else this
    }

    // The results of the two ::write calls of an event on this buffer.
    function First(a: Action): (n: int)
      requires Good() && a.Writable?
      ensures n <= layout.FirstLength()
    {
      AtMost(a.first, layout.FirstLength())
    }

    function Second(a: Action): (n: int)
      requires Good() && a.Writable?
      ensures n <= layout.size - layout.FirstLength()
    {
      AtMost(a.second, layout.size - layout.FirstLength())
    }

    // The action flushes a wrapped buffer, the first segment whole and the second not.
    predicate Miscounts(a: Action)
      requires Good()
    {
      a.Writable? && Listens() && layout.Miscounted(First(a), Second(a))
    }

    // The action is a flush that ends with EAGAIN.
    predicate Stalls(a: Action)
      requires Good()
    {
      a.Writable? && Listens() && layout.size > 0 && a.again && layout.Returned(First(a), Second(a)) < 0
    }
  }

  function RunSock(s: Sock, run: seq<Action>): (after: Sock)
    requires s.Good()
    ensures after.Good()
  {
    if run == [] then s else RunSock(s, run[..|run| - 1]).Step(run[|run| - 1])
  }

  // No action of the run meets a flush that is miscounted.
  ghost predicate NoMiscount(s: Sock, run: seq<Action>)
    requires s.Good()
  {
    forall i :: 0 <= i < |run| ==> !RunSock(s, run[..i]).Miscounts(run[i])
  }

  // Nothing but events and empty writes.
  predicate NothingNew(run: seq<Action>) {
    forall i :: 0 <= i < |run| && run[i].Write? ==> run[i].data == []
  }

  // The flush of action i ends with EAGAIN, and nothing is written after it.
  ghost predicate StallsAt(s: Sock, run: seq<Action>, i: nat)
    requires s.Good() && i < |run|
  {
    RunSock(s, run[..i]).Stalls(run[i]) && NothingNew(run[i + 1..])
  }

  ghost predicate EndsStalled(s: Sock, run: seq<Action>)
    requires s.Good()
  {
    (s.Stalled() && NothingNew(run)) || exists i: nat :: i < |run| && StallsAt(s, run, i)
  }

  lemma RunStarts(s: Sock)
    requires s.Good()
    ensures RunSock(s, []) == s && NoMiscount(s, []) && Written([]) == []
  {
  }

  lemma RunGoesOn(s: Sock, run: seq<Action>, a: Action)
    requires s.Good()
    ensures RunSock(s, run + [a]) == RunSock(s, run).Step(a)
    ensures NoMiscount(s, run + [a]) <==> NoMiscount(s, run) && !RunSock(s, run).Miscounts(a)
    ensures Written(run + [a]) == Written(run) + if a.Write? then a.data else []
  {
    hide NoMiscount, Sock.Step, Sock.Miscounts;
    assert (run + [a])[..|run|] == run;
    MiscountStep(s, run, a);
  }

  lemma MiscountStep(s: Sock, run: seq<Action>, a: Action)
    requires s.Good()
    ensures NoMiscount(s, run + [a]) <==> NoMiscount(s, run) && !RunSock(s, run).Miscounts(a)
  {
    var all := run + [a];
    assert all[..|run|] == run;
    forall i | 0 <= i < |run|
      ensures all[..i] == run[..i] && all[i] == run[i]
    {
    }
    assert NoMiscount(s, all) ==> !RunSock(s, all[..|run|]).Miscounts(all[|run|]);
  }

  // A step leaves the writer stalled if it stalls it, or if it was stalled and
  // nothing is written.
  lemma StallStep(s: Sock, a: Action)
    requires s.Good()
    ensures s.Step(a).Stalled() <==> s.Stalls(a) || (s.Stalled() && NothingNew([a]))
  {
    assert NothingNew([a]) <==> a.Writable? || a.data == [] by {
      assert [a][0] == a;
    }
  }

  lemma {:induction false} StallsAtStep(s: Sock, run: seq<Action>, i: nat)
    requires s.Good() && i + 1 < |run|
    ensures var before := run[..|run| - 1];
            StallsAt(s, run, i) <==> StallsAt(s, before, i) && NothingNew(run[|run| - 1..])
  {
    var before := run[..|run| - 1];
    assert before[..i] == run[..i];
    assert run[i + 1..] == before[i + 1..] + run[|run| - 1..];
  }

  /**
   * A run leaves bytes to send and a registered writer that no event reaches, if
   * and only if a flush of it ends with EAGAIN, or it starts that way, and nothing
   * is written afterwards.
   */
  lemma {:induction false} StalledIff(s: Sock, run: seq<Action>)
    requires s.Good()
    ensures RunSock(s, run).Stalled() <==> EndsStalled(s, run)
  {
    if run != [] {
      var before, last := run[..|run| - 1], run[|run| - 1];
      StalledIff(s, before);
      StallStep(RunSock(s, before), last);
      assert run == before + [last] && run[|run| - 1..] == [last];
      forall i: nat | i < |before|
        ensures StallsAt(s, run, i) <==> StallsAt(s, before, i) && NothingNew([last])
      {
        StallsAtStep(s, run, i);
      }
      assert StallsAt(s, run, |before|) <==> RunSock(s, before).Stalls(last);
      assert NothingNew(run) <==> NothingNew(before) && NothingNew([last]);
    }
  }

  lemma {:induction false} StaysInFront(s: Sock, run: seq<Action>)
    requires s.Good() && s.layout.r + s.layout.size + |Written(run)| <= s.layout.capacity
    ensures var l := RunSock(s, run).layout;
            l.capacity == s.layout.capacity && l.r + l.size <= s.layout.r + s.layout.size + |Written(run)|
  {
    if run != [] {
      StaysInFront(s, run[..|run| - 1]);
    }
  }

  lemma {:induction false} WrittenGrows(run: seq<Action>, i: nat)
    requires i <= |run|
    ensures |Written(run[..i])| <= |Written(run)|
  {
    if i < |run| {
      WrittenGrows(run[..|run| - 1], i);
      assert run[..|run| - 1][..i] == run[..i];
    } else {
      assert run[..i] == run;
    }
  }

  /**
   * As long as all bytes written fit behind those that are queued, no flush wraps
   * and none is miscounted.
   */
  lemma UnwrappedRunIsExact(s: Sock, run: seq<Action>)
    requires s.Good() && s.layout.r + s.layout.size + |Written(run)| <= s.layout.capacity
    ensures NoMiscount(s, run)
  {
    forall i | 0 <= i < |run|
      ensures !RunSock(s, run[..i]).Miscounts(run[i])
    {
      WrittenGrows(run, i);
      StaysInFront(s, run[..i]);
    }
  }

  const FRESH := Sock(Layout(SOCK_BUF_SIZE, 0, 0), false, false, false)

  /**
   * A run on a new socket that sends bytes twice: two writes, the second of which
   * wraps, and a flush that gets its first segment out and then meets EAGAIN.
   */
  lemma ShortFlushRepeats() returns (run: seq<Action>)
    ensures !NoMiscount(FRESH, run)
  {
    var one, two := Write(seq(30000, _ => 0)), Write(seq(20000, _ => 0));
    run := [one, Writable(20000, 0, false), two, Writable(12768, -1, true)];
    assert run[..3] == [one, Writable(20000, 0, false), two];
    var s1, s2 := FRESH.Step(one), FRESH.Step(one).Step(Writable(20000, 0, false));
    assert s2.layout == Layout(SOCK_BUF_SIZE, 10000, 20000);
    assert RunSock(FRESH, run[..1]) == s1 by {
      assert run[..1] == [one] && run[..0] == [];
    }
    assert run[..2][..1] == run[..1] && run[..3][..2] == run[..2];
    assert RunSock(FRESH, run[..2]) == s2;
    assert RunSock(FRESH, run[..3]) == s2.Step(two);
    assert RunSock(FRESH, run[..3]).Miscounts(run[3]);
  }

  // ----- when the writer is dropped and when it listens

  // What the last ::write call of a flush returns: there is a second call exactly
  // when the first sent its whole segment of a wrapped queue.
  function LastCall(l: Layout, first: int, second: int): int
    requires l.Fits()
  {
    if l.r + l.size > l.capacity && first == l.capacity - l.r > 0 then second else first
  }

  // That call sent something, or met EAGAIN.
  predicate KeepsWriter(last: int, again: bool) {
    last > 0 || (last < 0 && again)
  }

  // The action is an event that has bytes to send.
  predicate Flushes(s: Sock, a: Action) {
    a.Writable? && s.Listens() && s.layout.size > 0
  }

  // Its last call sends nothing, for a reason other than EAGAIN.
  predicate Fails(s: Sock, a: Action)
    requires s.Good()
  {
    Flushes(s, a) && !KeepsWriter(LastCall(s.layout, s.First(a), s.Second(a)), a.again)
  }

  // All its calls send something, but together less than the queue.
  predicate FlushesShort(s: Sock, a: Action)
    requires s.Good()
  {
    Flushes(s, a) && LastCall(s.layout, s.First(a), s.Second(a)) > 0
    && s.layout.Taken(s.First(a), s.Second(a)) < s.layout.size
  }

  // The action makes the writer wait for the next event: bytes are queued, or a
  // flush is short.
  predicate Arms(s: Sock, a: Action)
    requires s.Good()
  {
    (a.Write? && a.data != []) || FlushesShort(s, a)
  }

  // Action i of the run arms the writer, and no later one reaches it.
  ghost predicate ArmedAt(s: Sock, run: seq<Action>, i: nat)
    requires s.Good() && i < |run|
  {
    Arms(RunSock(s, run[..i]), run[i])
    && forall j :: i < j < |run| ==> !(run[j].Writable? && RunSock(s, run[..j]).Listens())
  }

  // Some flush of the run has failed.
  ghost predicate SomeFails(s: Sock, run: seq<Action>)
    requires s.Good()
  {
    exists i :: 0 <= i < |run| && Fails(RunSock(s, run[..i]), run[i])
  }

  ghost predicate SomeArms(s: Sock, run: seq<Action>)
    requires s.Good()
  {
    exists i: nat :: i < |run| && ArmedAt(s, run, i)
  }

  lemma FailStep(s: Sock, a: Action)
    requires s.Good() && (s.registered ==> s.hasWriter)
    ensures var t := s.Step(a);
            && (t.registered ==> t.hasWriter)
            && (t.hasWriter && !t.registered <==> (s.hasWriter && !s.registered) || Fails(s, a))
  {
  }

  lemma ArmStep(s: Sock, a: Action)
    requires s.Good()
    ensures s.Step(a).armed <==> Arms(s, a) || (s.armed && !(a.Writable? && s.Listens()))
  {
  }

  lemma SomeFailsSnoc(s: Sock, run: seq<Action>, a: Action)
    requires s.Good()
    ensures SomeFails(s, run + [a]) <==> SomeFails(s, run) || Fails(RunSock(s, run), a)
  {
    var all := run + [a];
    assert forall i :: 0 <= i < |run| ==> all[..i] == run[..i] && all[i] == run[i];
    assert all[..|run|] == run && all[|run|] == a;
  }

  lemma SomeArmsSnoc(s: Sock, run: seq<Action>, a: Action)
    requires s.Good()
    ensures SomeArms(s, run + [a]) <==>
              Arms(RunSock(s, run), a) || (SomeArms(s, run) && !(a.Writable? && RunSock(s, run).Listens()))
  {
    var all := run + [a];
    hide Arms, Sock.Listens;
    forall i | 0 <= i <= |run|
      ensures all[..i] == run[..i]
    {
    }
    assert run[..|run|] == run;
    forall i: nat | i < |run|
      ensures ArmedAt(s, all, i) <==> ArmedAt(s, run, i) && !(a.Writable? && RunSock(s, run).Listens())
    {
      assert all[|run|] == a && all[..|run|] == run;
      assert forall j :: 0 <= j < |run| ==> all[j] == run[j];
    }
    assert ArmedAt(s, all, |run|) <==> Arms(RunSock(s, run), a);
  }

  /**
   * From a new socket, a writer is dropped if and only if the last ::write call of
   * some flush returned 0 or an error other than EAGAIN.
   */
  lemma {:induction false} DroppedIff(run: seq<Action>)
    ensures var s := RunSock(FRESH, run);
            && (s.registered ==> s.hasWriter)
            && (s.hasWriter && !s.registered <==> SomeFails(FRESH, run))
  {
    if run != [] {
      var before, last := run[..|run| - 1], run[|run| - 1];
      DroppedIff(before);
      assert run == before + [last];
      hide SomeFails, Fails;
      SomeFailsSnoc(FRESH, before, last);
      FailStep(RunSock(FRESH, before), last);
    }
  }

  // The writer is armed if and only if bytes were queued, or a flush was short,
  // after the last event that reached it.
  lemma {:induction false} ArmedIff(run: seq<Action>)
    ensures RunSock(FRESH, run).armed <==> SomeArms(FRESH, run)
  {
    if run != [] {
      var before, last := run[..|run| - 1], run[|run| - 1];
      ArmedIff(before);
      assert run == before + [last];
      hide SomeArms, Arms;
      SomeArmsSnoc(FRESH, before, last);
      ArmStep(RunSock(FRESH, before), last);
    }
  }

  // The socket has a writer if and only if something was written.
  lemma {:induction false} WriterIff(run: seq<Action>)
    ensures RunSock(FRESH, run).hasWriter <==> !NothingNew(run)
    ensures RunSock(FRESH, run).layout.size > 0 ==> RunSock(FRESH, run).hasWriter
  {
    if run != [] {
      var before, last := run[..|run| - 1], run[|run| - 1];
      WriterIff(before);
      assert run == before + [last];
      NothingNewSnoc(before, last);
    }
  }

  lemma NothingNewSnoc(run: seq<Action>, a: Action)
    ensures NothingNew(run + [a]) <==> NothingNew(run) && (a.Write? ==> a.data == [])
  {
    assert (run + [a])[|run|] == a && forall i :: 0 <= i < |run| ==> (run + [a])[i] == run[i];
  }

  /**
   * A run in which no flush fails leaves queued bytes only to a writer that the next
   * event will reach, unless EAGAIN was met and nothing written since.
   */
  lemma {:induction false} QueuedIsServed(run: seq<Action>)
    requires !SomeFails(FRESH, run) && RunSock(FRESH, run).layout.size > 0
    ensures RunSock(FRESH, run).Listens() <==> !EndsStalled(FRESH, run)
  {
    DroppedIff(run);
    WriterIff(run);
    StalledIff(FRESH, run);
    hide SomeFails, EndsStalled;
  }

  // What delivered and queued bytes are to the bytes accepted: the same, or too many.
  lemma WriteConserves(delivered: seq<uint8>, queue: seq<uint8>, data: seq<uint8>, accepted: seq<uint8>)
    ensures delivered + queue == accepted ==> delivered + (queue + data) == accepted + data
  {
    assert delivered + (queue + data) == (delivered + queue) + data;
  }

  lemma FlushConserves(delivered: seq<uint8>, queue: seq<uint8>, sent: seq<uint8>, queue': seq<uint8>)
    requires sent + queue' == queue
    ensures (delivered + sent) + queue' == delivered + queue
  {
  }

  // A flush keeps the count of delivered and queued bytes, unless it is miscounted:
  // then there are too many.
  lemma FlushCounts(l: Layout, first: int, second: int)
    requires l.Fits() && l.Possible(first, second)
    ensures var count := l.Taken(first, second) + l.Flushed(first, second).size;
            if l.Miscounted(first, second) then count > l.size else count == l.size
  {
  }

  class ClientSocket {
    var writeBuf: CircularBuffer
    var hasWriter: bool
    var registered: bool
    var armed: bool

    ghost var accepted: seq<uint8>    // all bytes given to write
    ghost var delivered: seq<uint8>   // all bytes the descriptor has taken

    ghost predicate Valid()
      reads this, writeBuf, writeBuf.buf
    {
      Sound() && (registered ==> hasWriter)
    }

    // Bytes may be counted twice, never lost; when the counts agree, so do the bytes.
    ghost predicate Sound()
      reads this`writeBuf, this`accepted, this`delivered, writeBuf, writeBuf.buf
    {
      && writeBuf.InBounds() && writeBuf.capacity >= 2
      && |delivered| + writeBuf.size >= |accepted|
      && (|delivered| + writeBuf.size == |accepted| ==> writeBuf.Valid() && Exact())
    }

    // Delivered, then buffered bytes are all bytes written, in order.
    ghost predicate Exact()
      reads this`writeBuf, this`accepted, this`delivered, writeBuf, writeBuf.buf
    {
      writeBuf.InBounds() && delivered + writeBuf.Contents() == accepted
    }

    ghost function AsSock(): Sock
      reads this, writeBuf
    {
      Sock(writeBuf.AsLayout(), hasWriter, registered, armed)
    }

    constructor ()
      ensures Valid() && fresh(writeBuf) && fresh(writeBuf.buf)
      ensures Exact() && accepted == [] && AsSock() == FRESH
    {
      writeBuf := new CircularBuffer(SOCK_BUF_SIZE);
      hasWriter, registered, armed := false, false, false;
      accepted, delivered := [], [];
    }

    // The buffering half of write: grow until there is room, then append.
    method Enqueue(data: seq<uint8>)
      requires Sound()
      modifies this`accepted, writeBuf, writeBuf.buf
      ensures Sound() && (Exact() <==> old(Exact()))
      ensures writeBuf.buf == old(writeBuf.buf) || fresh(writeBuf.buf)
      ensures accepted == old(accepted) + data
      ensures var grown := old(writeBuf.AsLayout()).GrownFor(|data|);
              writeBuf.AsLayout() == grown.(size := grown.size + |data|)
    {
      hide CircularBuffer.Contents, CircularBuffer.Valid;
      writeBuf.GrowFor(|data|);
      var ok := writeBuf.Write(data);
      WriteConserves(delivered, old(writeBuf.Contents()), data, accepted);
      accepted := accepted + data;
    }

    method Write(data: seq<uint8>)
      requires Valid()
      modifies this, writeBuf, writeBuf.buf
      ensures Valid() && writeBuf == old(writeBuf) && (writeBuf.buf == old(writeBuf.buf) || fresh(writeBuf.buf))
      ensures accepted == old(accepted) + data && delivered == old(delivered) && (Exact() <==> old(Exact()))
      ensures AsSock() == old(AsSock()).Queue(|data|)
    {
      hide Exact, Sound, Layout.GrownFor, CircularBuffer.InBounds, CircularBuffer.Contents;
      assert accepted + [] == accepted;
      if data == [] {
        return;
      }
      Enqueue(data);
      if hasWriter {
        Rearm();
      } else {
        hasWriter, registered, armed := true, true, true;
      }
    }

    method Rearm()
      modifies this`armed
      ensures armed
    {
      if !armed {
        armed := true;
      }
    }

    // The flush of an event, with a record of what the descriptor took.
    method Flush(first: int, second: int) returns (ret: int)
      requires Sound() && writeBuf.AsLayout().Possible(first, second)
      modifies this`delivered, writeBuf`size, writeBuf`r, writeBuf`w
      ensures Sound() && (Exact() <==> old(Exact()) && !old(writeBuf.AsLayout()).Miscounted(first, second))
      ensures delivered == old(delivered + writeBuf.Contents()[..writeBuf.AsLayout().Taken(first, second)])
      ensures writeBuf.AsLayout() == old(writeBuf.AsLayout()).Flushed(first, second)
      ensures ret == old(writeBuf.AsLayout()).Returned(first, second)
    {
      ghost var queue, bad := writeBuf.Contents(), writeBuf.AsLayout().Miscounted(first, second);
      FlushCounts(writeBuf.AsLayout(), first, second);
      hide Layout.Taken, Layout.Flushed, Layout.Returned, Layout.Miscounted, Layout.Possible;
      hide CircularBuffer.Contents, CircularBuffer.Valid;
      ghost var sent;
      ret, sent := writeBuf.WriteToFd(first, second);
      if !bad {
        FlushConserves(delivered, queue, sent, writeBuf.Contents());
      }
      delivered := delivered + sent;
    }

    lemma NothingToFlush(first: int, second: int)
      requires Sound() && writeBuf.AsLayout().Possible(first, second) && writeBuf.size == 0
      ensures var l := writeBuf.AsLayout();
              !l.Miscounted(first, second) && l.Taken(first, second) == 0
    {
    }

    lemma LastDecides(first: int, second: int)
      requires Sound() && writeBuf.AsLayout().Possible(first, second) && writeBuf.size > 0
      ensures var l := writeBuf.AsLayout();
              && l.Fits()
              && (l.Returned(first, second) == 0 <==> LastCall(l, first, second) == 0)
              && (l.Returned(first, second) < 0 <==> LastCall(l, first, second) < 0)
    {
    }

    // One event of the writer; unless kept, the event manager unregisters it.
    method HandleEvent(first: int, second: int, again: bool) returns (keep: bool)
      requires Valid() && registered && writeBuf.AsLayout().Possible(first, second)
      modifies this, writeBuf
      ensures Valid() && writeBuf == old(writeBuf) && writeBuf.buf == old(writeBuf.buf)
      ensures accepted == old(accepted)
      ensures delivered == old(delivered + writeBuf.Contents()[..writeBuf.AsLayout().Taken(first, second)])
      ensures Exact() <==> old(Exact()) && !old(writeBuf.AsLayout()).Miscounted(first, second)
      ensures AsSock() == old(AsSock()).Event(first, second, again) && keep == registered
      ensures keep == (old(writeBuf.size) == 0 || KeepsWriter(LastCall(old(writeBuf.AsLayout()), first, second), again))
    {
      hide Layout.Taken, Layout.Flushed, Layout.Returned, Layout.Miscounted, Layout.Possible, LastCall;
      hide CircularBuffer.Contents, CircularBuffer.InBounds, Exact, Sound;
      armed := false;
      var bsize := writeBuf.size;
      if bsize > 0 {
        LastDecides(first, second);
      } else {
        IsGood();
      }
      if bsize == 0 {
        NothingToFlush(first, second);
        assert delivered + [] == delivered;
        return true;
      }
      var ret := Flush(first, second);
      if 0 < ret < bsize {
        Rearm();
      }
      keep := !(ret == 0 || (ret < 0 && !again));
      registered := keep;
    }

    lemma IsGood()
      requires Valid()
      ensures AsSock().Good()
    {
    }

    // One action of a run; an event reaches the writer only while it is registered
    // and armed.
    method Act(a: Action)
      requires Valid()
      modifies this, writeBuf, writeBuf.buf
      ensures Valid() && writeBuf == old(writeBuf) && (writeBuf.buf == old(writeBuf.buf) || fresh(writeBuf.buf))
      ensures accepted == old(accepted) + if a.Write? then a.data else []
      ensures Exact() <==> old(Exact()) && !old(AsSock()).Miscounts(a)
      ensures AsSock() == old(AsSock()).Step(a)
    {
      hide Exact, Layout.Taken, Layout.Flushed, Layout.Returned, Layout.Miscounted;
      match a
      case Write(data) =>
        Write(data);
      case Writable(first, second, again) =>
        assert accepted + [] == accepted;
        if registered && armed {
          var l := writeBuf.AsLayout();
          var n := l.FirstLength();
          var keep := HandleEvent(AtMost(first, n), AtMost(second, l.size - n), again);
        }
    }

    /**
     * Any run of writes and writable events. The bytes are delivered in order, each
     * once, if and only if the run meets no miscounted flush, and the writer is left
     * stalled if and only if the last flush before which nothing new came met EAGAIN.
     */
    method Serve(run: seq<Action>)
      requires Valid()
      modifies this, writeBuf, writeBuf.buf
      ensures Valid() && AsSock() == RunSock(old(AsSock()), run)
      ensures accepted == old(accepted) + Written(run)
      ensures Exact() <==> old(Exact()) && NoMiscount(old(AsSock()), run)
      ensures AsSock().Stalled() <==> EndsStalled(old(AsSock()), run)
    {
      hide *;
      ghost var s := AsSock();
      IsGood();
      RunStarts(s);
      assert run[..0] == [] && accepted == accepted + [];
      for i := 0 to |run|
        invariant Valid() && writeBuf == old(writeBuf) && (writeBuf.buf == old(writeBuf.buf) || fresh(writeBuf.buf))
        invariant s.Good() && AsSock() == RunSock(s, run[..i])
        invariant accepted == old(accepted) + Written(run[..i])
        invariant Exact() <==> old(Exact()) && NoMiscount(s, run[..i])
      {
        RunGoesOn(s, run[..i], run[i]);
        assert run[..i + 1] == run[..i] + [run[i]];
        Act(run[i]);
      }
      assert run[..|run|] == run;
      StalledIff(s, run);
    }
  }
}
