/**
 * What every run of the tracker's poll and handler protocol keeps: exact
 * reference counts, and one reader per connection.
 */
module ProtocolInvariants {
  import opened Wrappers
  import opened Protocol

  // ----- the invariant

  ghost predicate SlotsOk(s: State) {
    forall i {:trigger s.slots[i]} :: 0 <= i < |s.slots| ==>
      if s.slots[i].pfd.fd < 0 then s.slots[i] == Slot(FREE_FD, None)
      else s.slots[i].client.Some? && s.slots[i].client.value in s.live
           && s.slots[i].pfd.fd == s.live[s.slots[i].client.value].socket
  }

  // The slots the current scan has passed.
  function Passed(pc: Pc): nat {
    if pc.Scanning? || pc.Dispatching? then pc.i else 0
  }

  // Only those may be free.
  ghost predicate PcOk(s: State) {
    && (if s.pc.Dispatching? then s.pc.i < |s.slots| else Passed(s.pc) <= |s.slots|)
    && forall i :: Passed(s.pc) <= i < |s.slots| ==> s.slots[i].pfd.fd >= 0
  }

  ghost predicate TableOk(s: State) {
    && (forall k :: k in s.table ==> s.table[k] in s.live && s.live[s.table[k]].key == k)
    && (forall c :: c in s.live ==> s.live[c].key in s.table && s.table[s.live[c].key] == c)
  }

  ghost predicate SocketsOk(s: State) {
    forall c, d :: c in s.live && d in s.live && s.live[c].socket == s.live[d].socket ==> c == d
  }

  // Live means held, and the count says by how many.
  ghost predicate RefOk(s: State, c: ClientId) {
    (c in s.live <==> Holders(s, c) > 0) && (c in s.live ==> s.live[c].refCount == Holders(s, c))
  }

  ghost predicate RefsOk(s: State) {
    forall c :: RefOk(s, c)
  }

  ghost predicate Inv(s: State) {
    SlotsOk(s) && PcOk(s) && TableOk(s) && SocketsOk(s) && RefsOk(s)
  }

  lemma HandlerIsLive(s: State, h: Handler)
    requires RefsOk(s) && h in s.handlers
    ensures h.client in s.live
  {
    assert s.handlers[h] > 0;
    assert h == Handler(h.client, h.rearmed);
    assert RefOk(s, h.client);
  }

  lemma InvIsSafe(s: State, e: Event)
    requires Inv(s) && Enabled(s, e)
    ensures Safe(s, e)
  {
    match e
    case Rearm(c) => HandlerIsLive(s, Handler(c, false));
    case Release(c) => HandlerIsLive(s, Handler(c, true));
    case _ =>
  }

  // Dropping one of c's references in a state t where it is no longer held.
  lemma DecRefKeeps(s: State, c: ClientId, t: State)
    requires c in s.live && TableOk(s) && SocketsOk(s)
    requires t.live == DecRef(s, c).live && t.table == DecRef(s, c).table
    ensures TableOk(t) && SocketsOk(t)
  {
  }

  lemma AcceptRefs(s: State, e: Event)
    requires Inv(s) && e.Accept? && Enabled(s, e) && Safe(s, e)
    ensures RefsOk(Apply(s, e))
  {
    hide Holding, SlotsOk, SocketsOk, PcOk;
    var t := Apply(s, e);
    var x := t.slots[|s.slots|];
    forall d
      ensures RefOk(t, d)
    {
      assert RefOk(s, d);
      HoldingSnoc(s.slots, x, d);
    }
  }

  lemma AcceptTable(s: State, e: Event)
    requires TableOk(s) && SocketsOk(s) && e.Accept? && Enabled(s, e) && Safe(s, e)
    ensures TableOk(Apply(s, e)) && SocketsOk(Apply(s, e))
  {
    hide Holding;
  }

  lemma AcceptSlots(s: State, e: Event)
    requires SlotsOk(s) && PcOk(s) && e.Accept? && Enabled(s, e) && Safe(s, e)
    ensures SlotsOk(Apply(s, e)) && PcOk(Apply(s, e))
  {
    hide Holding;
  }

  lemma AcceptKeeps(s: State, e: Event)
    requires Inv(s) && e.Accept? && Enabled(s, e) && Safe(s, e)
    ensures Inv(Apply(s, e))
  {
    hide SlotsOk, PcOk, TableOk, SocketsOk, RefsOk;
    AcceptRefs(s, e);
    AcceptTable(s, e);
    AcceptSlots(s, e);
  }

  lemma RehearKeeps(s: State, i: nat)
    requires Inv(s) && s.pc == Scanning(i) && i < |s.slots|
    ensures s.slots[i].pfd.fd >= 0 && Inv(Rehear(s, i).(pc := Dispatching(i)))
  {
    hide Holding;
    var t := Rehear(s, i).(pc := Dispatching(i));
    forall d
      ensures Holders(t, d) == Holders(s, d)
    {
      HoldingUpdate(s.slots, i, t.slots[i], d);
    }
    SameRefs(s, t);
    hide RefsOk, Holders;
  }

  lemma DispatchRefs(s: State, i: nat)
    requires Inv(s) && i < |s.slots| && s.slots[i].pfd.fd >= 0
    ensures RefsOk(Dispatch(s, i))
  {
    hide Holding, SlotsOk, SocketsOk, PcOk, TableOk;
    SlotIsLive(s, i);
    var t := Dispatch(s, i);
    forall d
      ensures RefOk(t, d)
    {
      assert RefOk(s, d);
      HoldingUpdate(s.slots, i, t.slots[i], d);
    }
  }

  lemma SlotIsLive(s: State, i: nat)
    requires SlotsOk(s) && i < |s.slots| && s.slots[i].pfd.fd >= 0
    ensures s.slots[i].client.Some? && s.slots[i].client.value in s.live
  {
  }

  lemma SlotHolds(s: State, i: nat)
    requires RefsOk(s) && i < |s.slots| && s.slots[i].client.Some?
    ensures s.slots[i].client.value in s.live
  {
    HoldingIffSlot(s.slots, s.slots[i].client.value);
    assert RefOk(s, s.slots[i].client.value);
  }

  lemma DispatchKeeps(s: State, i: nat)
    requires Inv(s) && s.pc == Dispatching(i)
    ensures Inv(Dispatch(s, i).(pc := Scanning(i + 1)))
  {
    var t := Dispatch(s, i).(pc := Scanning(i + 1));
    DispatchRefs(s, i);
    SameRefs(Dispatch(s, i), t);
    hide RefsOk, Holders, Holding;
    if s.slots[i].pfd.gone {
      DecRefKeeps(s, s.slots[i].client.value, t);
    }
    SlotsHold(t);
  }

  lemma SlotsHold(s: State)
    requires RefsOk(s)
    ensures forall j :: 0 <= j < |s.slots| && s.slots[j].client.Some? ==> s.slots[j].client.value in s.live
  {
    forall j | 0 <= j < |s.slots| && s.slots[j].client.Some?
      ensures s.slots[j].client.value in s.live
    {
      SlotHolds(s, j);
    }
  }

  lemma ReleaseRefs(s: State, c: ClientId)
    requires Inv(s) && Handler(c, true) in s.handlers && c in s.live
    ensures RefsOk(Apply(s, Release(c)))
  {
    hide Holding, SlotsOk, SocketsOk, PcOk, TableOk;
    var t := Apply(s, Release(c));
    forall d
      ensures RefOk(t, d)
    {
      assert RefOk(s, d);
    }
  }

  lemma ReleaseKeeps(s: State, c: ClientId)
    requires Inv(s) && Handler(c, true) in s.handlers && c in s.live
    ensures Inv(Apply(s, Release(c)))
  {
    var t := Apply(s, Release(c));
    ReleaseRefs(s, c);
    hide RefsOk, Holders, Holding;
    DecRefKeeps(s, c, t);
    SlotsHold(t);
  }

  lemma SameRefs(s: State, t: State)
    requires RefsOk(s) && t.live.Keys == s.live.Keys
    requires forall c :: c in s.live ==> t.live[c].refCount == s.live[c].refCount
    requires forall c :: Holders(t, c) == Holders(s, c)
    ensures RefsOk(t)
  {
    forall c
      ensures RefOk(t, c)
    {
      assert RefOk(s, c);
    }
  }

  lemma CleanRefs(s: State)
    requires Inv(s) && Enabled(s, Clean)
    ensures RefsOk(Apply(s, Clean))
  {
    hide TableOk, SocketsOk, PcOk, CleanFrom, Holding, Listening;
    FreeSlotsEmpty(s);
    var t := Apply(s, Clean);
    forall c
      ensures Holders(t, c) == Holders(s, c)
    {
      CleanKeepsCounts(s.slots, 0, c);
    }
    SameRefs(s, t);
  }

  // What clean_fds leaves was there before, and is not free.
  lemma CleanSlots(slots: seq<Slot>)
    ensures forall i :: 0 <= i < |CleanFrom(slots, 0)| ==>
            CleanFrom(slots, 0)[i] in slots && Kept(CleanFrom(slots, 0)[i])
  {
    CleanKeeps(slots, 0);
    KeptOnlySub(slots);
    hide CleanFrom, KeptOnly, Kept;
    forall i | 0 <= i < |CleanFrom(slots, 0)|
      ensures CleanFrom(slots, 0)[i] in slots && Kept(CleanFrom(slots, 0)[i])
    {
      assert CleanFrom(slots, 0)[i] in multiset(CleanFrom(slots, 0));
    }
  }

  lemma CleanInv(s: State)
    requires Inv(s) && Enabled(s, Clean)
    ensures Inv(Apply(s, Clean))
  {
    CleanRefs(s);
    CleanSlots(s.slots);
    hide RefsOk, CleanFrom;
  }

  lemma {:induction false} KeptOnlySub(slots: seq<Slot>)
    ensures forall x :: x in KeptOnly(slots) ==> x in slots
  {
    if slots != [] {
      KeptOnlySub(slots[..|slots| - 1]);
    }
  }

  lemma PollKeeps(s: State, revents: seq<(bool, bool)>)
    requires Inv(s) && Enabled(s, Poll(revents))
    ensures Inv(Apply(s, Poll(revents)))
  {
    var t := Apply(s, Poll(revents));
    forall c
      ensures Holders(t, c) == Holders(s, c)
    {
      RevertsKeepCounts(s.slots, revents, c);
    }
    SameRefs(s, t);
  }

  lemma RearmKeeps(s: State, c: ClientId)
    requires Inv(s) && Handler(c, false) in s.handlers && c in s.live
    ensures Inv(Apply(s, Rearm(c)))
  {
    var t := Apply(s, Rearm(c));
    forall d
      ensures Holders(t, d) == Holders(s, d)
    {
    }
    SameRefs(s, t);
  }

  lemma PcKeeps(s: State, pc: Pc)
    requires Inv(s) && Passed(s.pc) == 0 && (pc == Accepting || pc == Scanning(0))
    ensures Inv(s.(pc := pc))
  {
    SameRefs(s, s.(pc := pc));
    hide RefsOk, Holders;
  }

  // Every step keeps the invariant.
  lemma {:induction false} InvStep(s: State, e: Event)
    requires Inv(s) && Enabled(s, e) && Safe(s, e)
    ensures Inv(Apply(s, e))
  {
    hide Inv, Rehear, Dispatch, DecRef, SetRevents, CleanFrom;
    match e
    case Poll(revents) => PollKeeps(s, revents);
    case Interrupted => PcKeeps(s, Accepting);
    case Accept(_, _, _) => AcceptKeeps(s, e);
    case NoAccept => PcKeeps(s, Scanning(0));
    case RehearNext => RehearKeeps(s, s.pc.i);
    case DispatchNext => DispatchKeeps(s, s.pc.i);
    case Clean => CleanInv(s);
    case Rearm(c) => RearmKeeps(s, c);
    case Release(c) => ReleaseKeeps(s, c);
  }

  // ----- one token per connection

  // A client has at most one token, a slotted client exactly one.
  ghost predicate TokenOk(s: State, c: ClientId)
    requires c in s.live
  {
    Tokens(s, c) <= 1 && Holding(s.slots, c) <= 1 && (Holding(s.slots, c) == 1 ==> Tokens(s, c) == 1)
  }

  ghost predicate TokensOk(s: State) {
    && (forall c :: c in s.live ==> TokenOk(s, c))
    && (forall i {:trigger s.slots[i]} :: 0 <= i < |s.slots| && s.slots[i].pfd.ready ==> s.slots[i].pfd.listens)
  }

  // The connection's key is new, or its client has neither slot nor token left.
  predicate AcceptGuard(s: State, key: Key) {
    key in s.table ==>
      var c := s.table[key];
      c in s.live && Holding(s.slots, c) == 0 && !s.live[c].canRehear && s.handlers[Handler(c, false)] == 0
  }

  // Accepting a connection keeps one token per client exactly when the guard
  // holds: reusing the key of a client that still has a slot or a token breaks it.
  lemma AcceptKeepsTokensIff(s: State, e: Event)
    requires Inv(s) && TokensOk(s) && e.Accept? && Enabled(s, e) && Safe(s, e)
    ensures TokensOk(Apply(s, e)) <==> AcceptGuard(s, e.key)
  {
    hide Holding, Listening, SlotsOk, SocketsOk, PcOk;
    var t := Apply(s, e);
    var c := GetOrCreate(s, e.key, e.socket, e.address).1;
    var x := t.slots[|s.slots|];
    assert RefOk(s, c);
    HoldingIffSlot(s.slots, c);
    forall d
      ensures Holding(t.slots, d) == Holding(s.slots, d) + if d == c then 1 else 0
      ensures Listening(t.slots, d) == Listening(s.slots, d) + if d == c then 1 else 0
    {
      HoldingSnoc(s.slots, x, d);
    }
    assert forall d :: d in s.live && d != c ==> (TokenOk(t, d) <==> TokenOk(s, d));
    if e.key in s.table {
      assert TokenOk(s, c);
      assert Tokens(t, c) == Tokens(s, c) + 1;
    }
    assert TokenOk(t, c) <==> AcceptGuard(s, e.key);
  }

  // A token of one client d through the two halves of a slot's treatment.
  lemma RehearToken(s: State, i: nat, d: ClientId)
    requires Inv(s) && i < |s.slots| && s.slots[i].pfd.fd >= 0 && d in s.live && TokenOk(s, d)
    ensures d in Rehear(s, i).live && TokenOk(Rehear(s, i), d)
  {
    hide Holding, Listening, SocketsOk, PcOk, RefsOk, TableOk;
    HoldingIffSlot(s.slots, d);
    if s.slots[i].client == Some(d) && s.slots[i].pfd.listens { ListeningAt(s.slots, i, d); }
    HoldingUpdate(s.slots, i, Rehear(s, i).slots[i], d);
  }

  lemma DispatchToken(s: State, i: nat, d: ClientId)
    requires Inv(s) && i < |s.slots| && s.slots[i].pfd.fd >= 0 && d in s.live && TokenOk(s, d)
    requires s.slots[i].pfd.ready ==> s.slots[i].pfd.listens
    ensures d in Dispatch(s, i).live ==> TokenOk(Dispatch(s, i), d)
  {
    hide Holding, Listening, SocketsOk, PcOk, RefsOk, TableOk;
    var t := Dispatch(s, i);
    HoldingIffSlot(s.slots, d);
    HoldingIffSlot(t.slots, d);
    if s.slots[i].client == Some(d) && s.slots[i].pfd.listens { ListeningAt(s.slots, i, d); }
    HoldingUpdate(s.slots, i, t.slots[i], d);
  }

  lemma RehearTokens(s: State, i: nat)
    requires Inv(s) && TokensOk(s) && i < |s.slots| && s.slots[i].pfd.fd >= 0
    ensures TokensOk(Rehear(s, i))
  {
    hide TokenOk, Inv;
    SlotAttached(s, i);
    forall d | d in Rehear(s, i).live
      ensures TokenOk(Rehear(s, i), d)
    {
      RehearToken(s, i, d);
    }
  }

  lemma DispatchTokens(s: State, i: nat)
    requires Inv(s) && TokensOk(s) && i < |s.slots| && s.slots[i].pfd.fd >= 0
    ensures TokensOk(Dispatch(s, i))
  {
    hide TokenOk, Inv;
    SlotAttached(s, i);
    forall d | d in Dispatch(s, i).live
      ensures TokenOk(Dispatch(s, i), d)
    {
      DispatchToken(s, i, d);
    }
  }

  lemma SlotAttached(s: State, i: nat)
    requires Inv(s) && i < |s.slots| && s.slots[i].pfd.fd >= 0
    ensures Attached(s, i)
  {
    hide RefsOk, TableOk, SocketsOk, PcOk;
  }

  lemma CleanTokens(s: State)
    requires Inv(s) && TokensOk(s) && Enabled(s, Clean)
    ensures TokensOk(Apply(s, Clean))
  {
    hide Holding, Listening, SlotsOk, SocketsOk, PcOk, RefsOk, TableOk, KeptOnly;
    var t := Apply(s, Clean);
    FreeSlotsEmpty(s);
    CleanKeeps(s.slots, 0);
    KeptOnlySub(s.slots);
    forall i | 0 <= i < |t.slots|
      ensures t.slots[i] in s.slots
    {
      assert t.slots[i] in multiset(t.slots);
    }
    forall d | d in t.live
      ensures TokenOk(t, d)
    {
      assert TokenOk(s, d);
      CleanKeepsCounts(s.slots, 0, d);
    }
  }

  lemma FreeSlotsEmpty(s: State)
    requires SlotsOk(s)
    ensures forall x :: x in s.slots && !Kept(x) ==> x.client == None
  {
  }

  lemma PollTokens(s: State, revents: seq<(bool, bool)>)
    requires TokensOk(s) && Enabled(s, Poll(revents))
    ensures TokensOk(Apply(s, Poll(revents)))
  {
    hide Holding, Listening;
    var t := Apply(s, Poll(revents));
    forall d | d in t.live
      ensures TokenOk(t, d)
    {
      assert TokenOk(s, d);
      RevertsKeepCounts(s.slots, revents, d);
    }
  }

  lemma HandlerToken(s: State, e: Event, d: ClientId)
    requires (e.Rearm? || e.Release?) && Enabled(s, e) && Safe(s, e)
    requires d in s.live && TokenOk(s, d) && d in Apply(s, e).live
    ensures TokenOk(Apply(s, e), d)
  {
    hide Holding, Listening;
  }

  lemma HandlerTokens(s: State, e: Event)
    requires TokensOk(s) && (e.Rearm? || e.Release?) && Enabled(s, e) && Safe(s, e)
    ensures TokensOk(Apply(s, e))
  {
    hide Holding, Listening;
    forall d | d in Apply(s, e).live
      ensures TokenOk(Apply(s, e), d)
    {
      assert TokenOk(s, d);
      HandlerToken(s, e, d);
    }
  }

  predicate Guarded(s: State, e: Event) {
    e.Accept? ==> AcceptGuard(s, e.key)
  }

  // Every step but an unguarded accept keeps one token per client.
  lemma TokenStep(s: State, e: Event)
    requires Inv(s) && TokensOk(s) && Enabled(s, e) && Safe(s, e) && Guarded(s, e)
    ensures TokensOk(Apply(s, e))
  {
    match e
    case Poll(revents) => PollTokens(s, revents);
    case Interrupted => SameTokens(s, Apply(s, e));
    case Accept(_, _, _) => AcceptKeepsTokensIff(s, e);
    case NoAccept => SameTokens(s, Apply(s, e));
    case RehearNext =>
      RehearTokens(s, s.pc.i);
      SameTokens(Rehear(s, s.pc.i), Apply(s, e));
    case DispatchNext =>
      DispatchTokens(s, s.pc.i);
      SameTokens(Dispatch(s, s.pc.i), Apply(s, e));
    case Clean => CleanTokens(s);
    case Rearm(_) => HandlerTokens(s, e);
    case Release(_) => HandlerTokens(s, e);
  }

  lemma SameTokens(s: State, t: State)
    requires TokensOk(s) && t.live == s.live && t.slots == s.slots && t.handlers == s.handlers
    ensures TokensOk(t)
  {
    forall d | d in t.live
      ensures TokenOk(t, d)
    {
      assert TokenOk(s, d);
    }
  }

  // ----- whole runs

  // The state after a sequence of events from the start, if each was enabled.
  function After(events: seq<Event>): Option<State> {
    if events == [] then Some(INIT)
    else
      match After(events[..|events| - 1])
      case None => None
      case Some(s) =>
        var e := events[|events| - 1];
        if Enabled(s, e) && Safe(s, e) then Some(Apply(s, e)) else None
  }

  // Every accept of the run met the guard.
  predicate GuardedRun(events: seq<Event>) {
    events == [] ||
    (GuardedRun(events[..|events| - 1])
     && (After(events[..|events| - 1]).Some? ==> Guarded(After(events[..|events| - 1]).value, events[|events| - 1])))
  }

  lemma {:induction false} RunKeepsInv(events: seq<Event>)
    ensures After(events).Some? ==> Inv(After(events).value)
  {
    if events == [] {
      assert forall c :: RefOk(INIT, c);
    } else if After(events).Some? {
      RunKeepsInv(events[..|events| - 1]);
      InvStep(After(events[..|events| - 1]).value, events[|events| - 1]);
    }
  }

  // In every reachable state: a client is live exactly while something holds
  // it, its count is the number of its holders, no slot or handler holds a
  // deleted client, and no enabled step dereferences one.
  lemma {:induction false} ReferencesExact(events: seq<Event>)
    requires After(events).Some?
    ensures var s := After(events).value;
            && (forall c :: c in s.live <==> Holders(s, c) > 0)
            && (forall c :: c in s.live ==> s.live[c].refCount == Holders(s, c))
            && (forall i :: 0 <= i < |s.slots| && s.slots[i].client.Some? ==> s.slots[i].client.value in s.live)
            && (forall h :: h in s.handlers ==> h.client in s.live)
            && (forall k :: k in s.table ==> s.table[k] in s.live)
            && (forall e :: Enabled(s, e) ==> Safe(s, e))
  {
    RunKeepsInv(events);
    var s := After(events).value;
    forall c
      ensures c in s.live <==> Holders(s, c) > 0
      ensures c in s.live ==> s.live[c].refCount == Holders(s, c)
    {
      assert RefOk(s, c);
    }
    SlotsHold(s);
    forall h | h in s.handlers
      ensures h.client in s.live
    {
      HandlerIsLive(s, h);
    }
    forall e | Enabled(s, e)
      ensures Safe(s, e)
    {
      InvIsSafe(s, e);
    }
  }

  // A step deletes a client exactly when it drops the last reference to it.
  lemma {:induction false} DeletedAtLastRelease(events: seq<Event>, e: Event, c: ClientId)
    requires After(events).Some? && Enabled(After(events).value, e) && c in After(events).value.live
    ensures Safe(After(events).value, e)
    ensures var s := After(events).value;
            c !in Apply(s, e).live <==> Holders(Apply(s, e), c) == 0
  {
    var s := After(events).value;
    RunKeepsInv(events);
    InvIsSafe(s, e);
    InvStep(s, e);
    assert RefOk(Apply(s, e), c);
  }

  lemma {:induction false} RunKeepsTokens(events: seq<Event>)
    requires GuardedRun(events)
    ensures After(events).Some? ==> TokensOk(After(events).value)
  {
    if events != [] && After(events).Some? {
      RunKeepsTokens(events[..|events| - 1]);
      RunKeepsInv(events[..|events| - 1]);
      TokenStep(After(events[..|events| - 1]).value, events[|events| - 1]);
    }
  }

  // The handlers that may be reading socket `fd`: not yet past can_rehear.
  predicate MayRead(s: State, h: Handler, fd: nat) {
    h in s.handlers && !h.rearmed && h.client in s.live && s.live[h.client].socket == fd
  }

  // In every guarded run each slotted client has exactly one token, and no two
  // handlers read the same socket at once.
  lemma OneReaderPerSocket(events: seq<Event>)
    requires GuardedRun(events) && After(events).Some?
    ensures var s := After(events).value;
            && (forall c :: c in s.live && Holding(s.slots, c) > 0 ==> Tokens(s, c) == 1)
            && (forall h, k, fd :: MayRead(s, h, fd) && MayRead(s, k, fd) ==> h == k && s.handlers[h] == 1)
  {
    var s := After(events).value;
    RunKeepsTokens(events);
    RunKeepsInv(events);
    assert forall c :: c in s.live && Holding(s.slots, c) > 0 ==> TokenOk(s, c);
    forall h, k, fd | MayRead(s, h, fd) && MayRead(s, k, fd)
      ensures h == k && s.handlers[h] == 1
    {
      assert TokenOk(s, h.client);
      assert h == Handler(h.client, false) && k == Handler(k.client, false);
    }
  }

  // ----- the guard is needed

  predicate StepTo(s: State, e: Event, t: State) {
    Enabled(s, e) && Safe(s, e) && Apply(s, e) == t
  }

  lemma AfterSnoc(events: seq<Event>, s: State, e: Event, t: State)
    requires After(events) == Some(s) && StepTo(s, e, t)
    ensures After(events + [e]) == Some(t)
  {
    assert (events + [e])[..|events|] == events;
  }

  // One round of the poll thread over one slot.
  lemma RoundAfter(events: seq<Event>, es: seq<Event>, s0: State, s1: State, s2: State, s3: State, s4: State, s5: State)
    requires After(events) == Some(s0) && |es| == 5
    requires StepTo(s0, es[0], s1) && StepTo(s1, es[1], s2) && StepTo(s2, es[2], s3)
    requires StepTo(s3, es[3], s4) && StepTo(s4, es[4], s5)
    ensures After(events + es) == Some(s5)
  {
    hide After, StepTo;
    AfterSnoc(events, s0, es[0], s1);
    AfterSnoc(events + [es[0]], s1, es[1], s2);
    AfterSnoc(events + [es[0]] + [es[1]], s2, es[2], s3);
    AfterSnoc(events + [es[0]] + [es[1]] + [es[2]], s3, es[3], s4);
    AfterSnoc(events + [es[0]] + [es[1]] + [es[2]] + [es[3]], s4, es[4], s5);
    assert events + es == events + [es[0]] + [es[1]] + [es[2]] + [es[3]] + [es[4]];
  }

  // A single client with key "k" and socket 5, at most one slot.
  function One(refs: int, slots: seq<Slot>, handlers: multiset<Handler>, pc: Pc): State {
    State(map[0 := Client("k", 5, refs, false)], map["k" := 0], slots, handlers, pc)
  }

  function Fd5(listens: bool, ready: bool, gone: bool): seq<Slot> {
    [Slot(PollFd(5, listens, ready, gone), Some(0))]
  }

  const FIRST := [Poll([]), Accept("k", 5, 0), RehearNext, DispatchNext, Clean]
  const READY := [Poll([(true, false)]), NoAccept, RehearNext, DispatchNext, Clean]
  const HANGUP := [Poll([(false, true)]), NoAccept, RehearNext, DispatchNext, Clean]
  const REUSED := [Poll([]), Accept("k", 6, 1), RehearNext, DispatchNext, Clean]

  // The steps of a round that only look at the one slot.
  lemma PollFd5(refs: int, listens: bool, ready: bool, gone: bool, hs: multiset<Handler>)
    requires ready ==> listens
    ensures StepTo(One(refs, Fd5(listens, false, false), hs, Polling), Poll([(ready, gone)]),
                   One(refs, Fd5(listens, ready, gone), hs, Accepting))
  {
  }

  lemma NoAcceptFd5(refs: int, slots: seq<Slot>, hs: multiset<Handler>)
    ensures StepTo(One(refs, slots, hs, Accepting), NoAccept, One(refs, slots, hs, Scanning(0)))
  {
  }

  lemma RehearFd5(refs: int, listens: bool, ready: bool, gone: bool, hs: multiset<Handler>)
    ensures StepTo(One(refs, Fd5(listens, ready, gone), hs, Scanning(0)), RehearNext,
                   One(refs, Fd5(listens, ready, gone), hs, Dispatching(0)))
  {
  }

  // A slot without events is left alone.
  lemma IdleFd5(refs: int, listens: bool, hs: multiset<Handler>)
    ensures StepTo(One(refs, Fd5(listens, false, false), hs, Dispatching(0)), DispatchNext,
                   One(refs, Fd5(listens, false, false), hs, Scanning(1)))
  {
  }

  lemma ReadyFd5(refs: int, hs: multiset<Handler>)
    ensures StepTo(One(refs, Fd5(true, true, false), hs, Dispatching(0)), DispatchNext,
                   One(refs + 1, Fd5(false, false, false), hs + multiset{Handler(0, false)}, Scanning(1)))
  {
  }

  lemma GoneFd5(hs: multiset<Handler>)
    ensures StepTo(One(2, Fd5(false, false, true), hs, Dispatching(0)), DispatchNext,
                   One(1, [Slot(FREE_FD, None)], hs, Scanning(1)))
    ensures StepTo(One(1, [Slot(FREE_FD, None)], hs, Scanning(1)), Clean, One(1, [], hs, Polling))
  {
  }

  lemma ReuseFd5(hs: multiset<Handler>)
    ensures StepTo(One(1, [], hs, Polling), Poll([]), One(1, [], hs, Accepting))
    ensures StepTo(One(1, [], hs, Accepting), Accept("k", 6, 1), One(2, Fd5(true, false, false), hs, Scanning(0)))
  {
  }

  lemma CleanFd5(refs: int, listens: bool, hs: multiset<Handler>)
    ensures StepTo(One(refs, Fd5(listens, false, false), hs, Scanning(1)), Clean,
                   One(refs, Fd5(listens, false, false), hs, Polling))
  {
  }

  // The end of a round in which the slot was accepted.
  lemma QuietEnd(events: seq<Event>, es: seq<Event>, s0: State, s1: State, refs: int, hs: multiset<Handler>)
    requires After(events) == Some(s0) && |es| == 5 && es[2..] == [RehearNext, DispatchNext, Clean]
    requires StepTo(s0, es[0], s1) && StepTo(s1, es[1], One(refs, Fd5(true, false, false), hs, Scanning(0)))
    ensures After(events + es) == Some(One(refs, Fd5(true, false, false), hs, Polling))
  {
    RehearFd5(refs, true, false, false, hs);
    IdleFd5(refs, true, hs);
    CleanFd5(refs, true, hs);
    hide After, StepTo;
    var s := One(refs, Fd5(true, false, false), hs, Scanning(0));
    assert es[2] == es[2..][0] && es[3] == es[2..][1] && es[4] == es[2..][2];
    RoundAfter(events, es, s0, s1, s, s.(pc := Dispatching(0)), s.(pc := Scanning(1)), s.(pc := Polling));
  }

  lemma FirstConnection()
    ensures After([] + FIRST) == Some(One(1, Fd5(true, false, false), multiset{}, Polling))
  {
    var s1 := INIT.(pc := Accepting);
    assert StepTo(INIT, FIRST[0], s1);
    assert StepTo(s1, FIRST[1], One(1, Fd5(true, false, false), multiset{}, Scanning(0)));
    QuietEnd([], FIRST, INIT, s1, 1, multiset{});
  }

  // A round in which the slot is ready starts a handler on it.
  lemma ReadyRound(events: seq<Event>, refs: int, hs: multiset<Handler>)
    requires After(events) == Some(One(refs, Fd5(true, false, false), hs, Polling)) && refs >= 1
    ensures After(events + READY)
         == Some(One(refs + 1, Fd5(false, false, false), hs + multiset{Handler(0, false)}, Polling))
  {
    hide After, StepTo;
    var hs' := hs + multiset{Handler(0, false)};
    var s1 := One(refs, Fd5(true, true, false), hs, Accepting);
    var s4 := One(refs + 1, Fd5(false, false, false), hs', Scanning(1));
    PollFd5(refs, true, true, false, hs);
    NoAcceptFd5(refs, Fd5(true, true, false), hs);
    RehearFd5(refs, true, true, false, hs);
    CleanFd5(refs + 1, false, hs');
    ReadyFd5(refs, hs);
    RoundAfter(events, READY, One(refs, Fd5(true, false, false), hs, Polling), s1, s1.(pc := Scanning(0)),
               s1.(pc := Dispatching(0)), s4, s4.(pc := Polling));
  }

  // A round in which the peer hangs up frees the slot; the handler keeps the client.
  lemma HangupRound(events: seq<Event>)
    requires After(events) == Some(One(2, Fd5(false, false, false), multiset{Handler(0, false)}, Polling))
    ensures After(events + HANGUP) == Some(One(1, [], multiset{Handler(0, false)}, Polling))
  {
    hide After, StepTo;
    var hs := multiset{Handler(0, false)};
    var s1 := One(2, Fd5(false, false, true), hs, Accepting);
    var s4 := One(1, [Slot(FREE_FD, None)], hs, Scanning(1));
    PollFd5(2, false, false, true, hs);
    NoAcceptFd5(2, Fd5(false, false, true), hs);
    RehearFd5(2, false, false, true, hs);
    GoneFd5(hs);
    RoundAfter(events, HANGUP, One(2, Fd5(false, false, false), hs, Polling), s1, s1.(pc := Scanning(0)),
               s1.(pc := Dispatching(0)), s4, One(1, [], hs, Polling));
  }

  // A connection from "k" arrives while the first client with that key is still
  // held by its handler: the new slot listens on the old socket 5, not on 6.
  lemma ReusedKeyRound(events: seq<Event>)
    requires After(events) == Some(One(1, [], multiset{Handler(0, false)}, Polling))
    ensures After(events + REUSED) == Some(One(2, Fd5(true, false, false), multiset{Handler(0, false)}, Polling))
  {
    var hs := multiset{Handler(0, false)};
    var s0, s1 := One(1, [], hs, Polling), One(1, [], hs, Accepting);
    ReuseFd5(hs);
    hide After, StepTo;
    QuietEnd(events, REUSED, s0, s1, 2, hs);
  }

  // Without the guard two handlers can read one socket at once.
  lemma ReuseGivesTwoReaders() returns (events: seq<Event>)
    ensures After(events).Some? && After(events).value.handlers[Handler(0, false)] == 2
    ensures MayRead(After(events).value, Handler(0, false), 5)
  {
    hide After;
    FirstConnection();
    ReadyRound([] + FIRST, 1, multiset{});
    assert multiset{} + multiset{Handler(0, false)} == multiset{Handler(0, false)};
    HangupRound([] + FIRST + READY);
    ReusedKeyRound([] + FIRST + READY + HANGUP);
    events := [] + FIRST + READY + HANGUP + REUSED;
    ReadyRound(events, 2, multiset{Handler(0, false)});
    events := events + READY;
  }
}
