/**
 * What an accepted connection with the key of a known client leads to: exactly
 * when two handlers can come to read one socket, with no further reuse of a key.
 */
module KeyReuse {
  import opened Wrappers
  import opened Protocol
  import opened ProtocolInvariants

  // The state after a sequence of events from s, if each was enabled.
  function Onward(s: State, es: seq<Event>): Option<State>
    decreases |es|
  {
    if es == [] then Some(s)
    else if Enabled(s, es[0]) && Safe(s, es[0]) then Onward(Apply(s, es[0]), es[1..])
    else None
  }

  // A handler of c is still reading, or c has a slot without a pending hang-up.
  predicate Lasting(s: State, c: ClientId) {
    s.handlers[Handler(c, false)] > 0
    || exists i :: 0 <= i < |s.slots| && s.slots[i].client == Some(c) && !s.slots[i].pfd.gone
  }

  // An accepted key is new, or its client is not a lasting one.
  predicate Harmless(s: State, e: Event) {
    e.Accept? && e.key in s.table ==> !Lasting(s, s.table[e.key])
  }

  // Every accept on the way is harmless.
  predicate HarmlessFrom(s: State, es: seq<Event>)
    decreases |es|
  {
    es == [] || !Enabled(s, es[0]) || !Safe(s, es[0])
    || (Harmless(s, es[0]) && HarmlessFrom(Apply(s, es[0]), es[1..]))
  }

  // Two handlers may be reading one socket.
  ghost predicate TwoReaders(s: State) {
    exists h, k, fd :: MayRead(s, h, fd) && MayRead(s, k, fd) && !(h == k && s.handlers[h] == 1)
  }

  lemma {:induction false} OnwardAppend(s: State, es: seq<Event>, fs: seq<Event>)
    ensures Onward(s, es + fs) == if Onward(s, es).Some? then Onward(Onward(s, es).value, fs) else None
    ensures Onward(s, es).Some? ==>
              (HarmlessFrom(s, es + fs) <==> HarmlessFrom(s, es) && HarmlessFrom(Onward(s, es).value, fs))
    decreases |es|
  {
    hide Enabled, Safe, Apply, Harmless;
    if es == [] {
      assert es + fs == fs;
    } else if Enabled(s, es[0]) && Safe(s, es[0]) {
      OnwardAppend(Apply(s, es[0]), es[1..], fs);
    }
    assert es != [] ==> (es + fs)[1..] == es[1..] + fs;
  }

  lemma {:induction false} NoAcceptIsHarmless(s: State, es: seq<Event>)
    requires forall i :: 0 <= i < |es| ==> !es[i].Accept?
    ensures HarmlessFrom(s, es)
    decreases |es|
  {
    if es != [] && Enabled(s, es[0]) && Safe(s, es[0]) {
      NoAcceptIsHarmless(Apply(s, es[0]), es[1..]);
    }
  }

  // ----- one scan of the slots

  // The permissions to read c's socket that the rest of a scan will leave, from
  // slot i on: a slot that hangs up takes its own with it, and can_rehear goes to
  // the first slot of c.
  function Left(slots: seq<Slot>, i: nat, c: ClientId, can: bool): nat
    decreases |slots| - i
  {
    if i >= |slots| then 0
    else if slots[i].client != Some(c) then Left(slots, i + 1, c, can)
    else
      (if !slots[i].pfd.gone && (slots[i].pfd.listens || can) then 1 else 0) + Left(slots, i + 1, c, false)
  }

  // The slots of c that are ready to be answered.
  function Due(slots: seq<Slot>, i: nat, c: ClientId): nat
    decreases |slots| - i
  {
    if i >= |slots| then 0
    else
      (if slots[i].client == Some(c) && slots[i].pfd.ready && !slots[i].pfd.gone then 1 else 0)
      + Due(slots, i + 1, c)
  }

  predicate CanRehear(s: State, c: ClientId) {
    c in s.live && s.live[c].canRehear
  }

  // The handlers reading c's socket and the slots listening for it, once the scan
  // is over.
  function Outlook(s: State, c: ClientId): nat
    requires Passed(s.pc) <= |s.slots|
  {
    s.handlers[Handler(c, false)] + Listening(s.slots[..Passed(s.pc)], c)
    + Left(s.slots, Passed(s.pc), c, CanRehear(s, c))
  }

  lemma {:induction false} LeftOfTail(slots: seq<Slot>, slots': seq<Slot>, i: nat, c: ClientId, can: bool)
    requires |slots| == |slots'| && forall j :: i <= j < |slots| ==> slots[j] == slots'[j]
    ensures Left(slots, i, c, can) == Left(slots', i, c, can) && Due(slots, i, c) == Due(slots', i, c)
    decreases |slots| - i
  {
    if i < |slots| {
      LeftOfTail(slots, slots', i + 1, c, can);
      LeftOfTail(slots, slots', i + 1, c, false);
    }
  }

  lemma ListeningUpTo(slots: seq<Slot>, i: nat, c: ClientId)
    requires i < |slots|
    ensures Listening(slots[..i + 1], c)
         == Listening(slots[..i], c) + if slots[i].client == Some(c) && slots[i].pfd.listens then 1 else 0
  {
    assert slots[..i + 1] == slots[..i] + [slots[i]];
    HoldingSnoc(slots[..i], slots[i], c);
  }

  // The slot that has been treated, and c's can_rehear.
  lemma TreatedSlot(s: State, c: ClientId)
    requires Inv(s) && s.pc.Scanning? && s.pc.i < |s.slots| && Attached(s, s.pc.i)
    ensures var i, x := s.pc.i, s.slots[s.pc.i];
            var t := Dispatch(Rehear(s, i).(pc := Dispatching(i)), i);
            && t.slots == s.slots[i := t.slots[i]]
            && (x.client != Some(c) ==>
                  t.slots[i].client != Some(c) && CanRehear(t, c) == CanRehear(s, c)
                  && t.handlers[Handler(c, false)] == s.handlers[Handler(c, false)])
            && (x.client == Some(c) ==>
                  && !CanRehear(t, c)
                  && t.handlers[Handler(c, false)]
                     == s.handlers[Handler(c, false)] + (if !x.pfd.gone && x.pfd.ready then 1 else 0)
                  && (!x.pfd.gone && !x.pfd.ready ==>
                        t.slots[i].client == Some(c)
                        && t.slots[i].pfd.listens == (x.pfd.listens || CanRehear(s, c))))
  {
    hide RefsOk, TableOk, SocketsOk, PcOk;
  }

  lemma TreatedCounts(s: State, c: ClientId)
    requires Inv(s) && s.pc.Scanning? && s.pc.i < |s.slots| && Attached(s, s.pc.i)
    ensures var i := s.pc.i;
            var t := Dispatch(Rehear(s, i).(pc := Dispatching(i)), i).(pc := Scanning(i + 1));
            && Outlook(t, c) >= Outlook(s, c)
            && t.handlers[Handler(c, false)] + Due(t.slots, i + 1, c)
               >= s.handlers[Handler(c, false)] + Due(s.slots, i, c)
  {
    var i := s.pc.i;
    var t := Dispatch(Rehear(s, i).(pc := Dispatching(i)), i).(pc := Scanning(i + 1));
    TreatedSlot(s, c);
    hide Inv, Rehear, Dispatch, Listening, CanRehear;
    LeftOfTail(s.slots, t.slots, i + 1, c, CanRehear(s, c));
    LeftOfTail(s.slots, t.slots, i + 1, c, false);
    assert t.slots[..i] == s.slots[..i];
    ListeningUpTo(t.slots, i, c);
  }

  // One slot treated.
  lemma TreatSlot(s: State, c: ClientId) returns (t: State)
    requires Inv(s) && s.pc.Scanning? && s.pc.i < |s.slots|
    ensures Onward(s, [RehearNext, DispatchNext]) == Some(t) && HarmlessFrom(s, [RehearNext, DispatchNext])
    ensures Inv(t) && t.pc == Scanning(s.pc.i + 1) && |t.slots| == |s.slots|
    ensures Outlook(t, c) >= Outlook(s, c)
    ensures t.handlers[Handler(c, false)] + Due(t.slots, t.pc.i, c)
         >= s.handlers[Handler(c, false)] + Due(s.slots, s.pc.i, c)
  {
    var i := s.pc.i;
    InvIsSafe(s, RehearNext);
    SlotAttached(s, i);
    var m := Apply(s, RehearNext);
    InvStep(s, RehearNext);
    InvIsSafe(m, DispatchNext);
    t := Apply(m, DispatchNext);
    InvStep(m, DispatchNext);
    assert [RehearNext, DispatchNext][1..] == [DispatchNext] && [DispatchNext][1..] == [];
    NoAcceptIsHarmless(s, [RehearNext, DispatchNext]);
    TreatedCounts(s, c);
  }

  // The scan run to its end.
  lemma {:induction false} FinishScan(s: State, c: ClientId) returns (es: seq<Event>, t: State)
    requires Inv(s) && s.pc.Scanning? && s.pc.i <= |s.slots|
    ensures Onward(s, es) == Some(t) && HarmlessFrom(s, es)
    ensures Inv(t) && t.pc == Scanning(|t.slots|)
    ensures t.handlers[Handler(c, false)] + Listening(t.slots, c) >= Outlook(s, c)
    ensures t.handlers[Handler(c, false)] >= s.handlers[Handler(c, false)] + Due(s.slots, s.pc.i, c)
    decreases |s.slots| - s.pc.i
  {
    hide Inv, TokensOk, Listening, CanRehear, Apply, Enabled, Safe;
    if s.pc.i == |s.slots| {
      es, t := [], s;
      assert s.slots[..s.pc.i] == s.slots;
    } else {
      var u := TreatSlot(s, c);
      var more;
      more, t := FinishScan(u, c);
      es := [RehearNext, DispatchNext] + more;
      OnwardAppend(s, [RehearNext, DispatchNext], more);
    }
  }

  // ----- the round after the scan

  // Poll reports input on every slot of c that listens, and nothing else.
  function OnlyInput(slots: seq<Slot>, c: ClientId): (r: seq<(bool, bool)>)
    ensures |r| == |slots|
  {
    seq(|slots|, i requires 0 <= i < |slots| => (slots[i].client == Some(c) && slots[i].pfd.listens, false))
  }

  lemma {:induction false} AllDue(slots: seq<Slot>, i: nat, c: ClientId)
    requires i <= |slots|
    ensures var r := SetRevents(slots, OnlyInput(slots, c));
            Listening(slots[..i], c) + Due(r, i, c) == Listening(slots, c)
    decreases |slots| - i
  {
    if i == |slots| {
      assert slots[..i] == slots;
    } else {
      AllDue(slots, i + 1, c);
      ListeningUpTo(slots, i, c);
    }
  }

  // From the end of a scan: compacting, a poll with input for c, and a scan.
  lemma SecondRound(s: State, c: ClientId) returns (es: seq<Event>, t: State)
    requires Inv(s) && s.pc == Scanning(|s.slots|)
    ensures Onward(s, es) == Some(t) && HarmlessFrom(s, es) && Inv(t)
    ensures t.handlers[Handler(c, false)] >= s.handlers[Handler(c, false)] + Listening(s.slots, c)
  {
    var s1 := Apply(s, Clean);
    InvStep(s, Clean);
    var poll := Poll(OnlyInput(s1.slots, c));
    var s2 := Apply(s1, poll);
    InvStep(s1, poll);
    var s3 := Apply(s2, NoAccept);
    InvStep(s2, NoAccept);
    var more;
    more, t := FinishScan(s3, c);
    var first := [Clean, poll, NoAccept];
    assert first[1..] == [poll, NoAccept] && [poll, NoAccept][1..] == [NoAccept] && [NoAccept][1..] == [];
    assert Onward(s2, [NoAccept]) == Some(s3);
    assert Onward(s1, [poll, NoAccept]) == Some(s3);
    assert Onward(s, first) == Some(s3);
    NoAcceptIsHarmless(s, first);
    es := first + more;
    OnwardAppend(s, first, more);
    FreeSlotsEmpty(s);
    CleanKeepsCounts(s.slots, 0, c);
    AllDue(s1.slots, 0, c);
    assert s1.slots[..0] == [];
  }

  // ----- an accept that leads to two readers

  lemma {:induction false} LeftSees(slots: seq<Slot>, i: nat, k: nat, c: ClientId, can: bool)
    requires i <= k < |slots| && slots[k].client == Some(c) && !slots[k].pfd.gone
    requires slots[k].pfd.listens || (can && forall j :: i <= j < k ==> slots[j].client != Some(c))
    ensures Left(slots, i, c, can) >= 1 + Left(slots, k + 1, c, false)
    decreases k - i
  {
    if i == k {
      return;
    }
    LeftSees(slots, i + 1, k, c, if slots[i].client == Some(c) then false else can);
  }

  lemma {:induction false} MoreLeft(slots: seq<Slot>, i: nat, c: ClientId)
    ensures Left(slots, i, c, true) >= Left(slots, i, c, false)
    decreases |slots| - i
  {
    if i < |slots| && slots[i].client != Some(c) {
      MoreLeft(slots, i + 1, c);
    }
  }

  lemma {:induction false} HeldTwice(slots: seq<Slot>, i: nat, k: nat, c: ClientId)
    requires i < k < |slots| && slots[i].client == Some(c) && slots[k].client == Some(c)
    ensures Holding(slots, c) >= 2
    decreases |slots|
  {
    var n := |slots| - 1;
    if k < n {
      HeldTwice(slots[..n], i, k, c);
    } else {
      HoldingIffSlot(slots[..n], c);
      assert slots[..n][i].client == Some(c);
    }
  }

  // The only slot of c listens exactly if one does.
  lemma {:induction false} OnlySlot(slots: seq<Slot>, k: nat, c: ClientId)
    requires k < |slots| && slots[k].client == Some(c) && Holding(slots, c) == 1
    ensures Listening(slots, c) == if slots[k].pfd.listens then 1 else 0
    ensures forall j :: 0 <= j < |slots| && j != k ==> slots[j].client != Some(c)
    decreases |slots|
  {
    var n := |slots| - 1;
    forall j | 0 <= j < |slots| && j != k
      ensures slots[j].client != Some(c)
    {
      if slots[j].client == Some(c) {
        if j < k { HeldTwice(slots, j, k, c); } else { HeldTwice(slots, k, j, c); }
      }
    }
    if k < n {
      OnlySlot(slots[..n], k, c);
    } else {
      HoldingIffSlot(slots[..n], c);
    }
  }

  // What an accept on the key of client c adds.
  lemma Reaccepted(s: State, e: Event)
    requires e.Accept? && Enabled(s, e) && Safe(s, e) && e.key in s.table
    ensures var t, c := Apply(s, e), s.table[e.key];
            && |t.slots| == |s.slots| + 1 && t.slots[..|s.slots|] == s.slots
            && t.slots[|s.slots|].client == Some(c) && t.slots[|s.slots|].pfd.fd >= 0
            && t.slots[|s.slots|].pfd.listens && !t.slots[|s.slots|].pfd.ready && !t.slots[|s.slots|].pfd.gone
            && t.handlers == s.handlers && t.live.Keys == s.live.Keys && t.pc == Scanning(0)
            && forall d :: d in s.live ==> t.live[d].canRehear == s.live[d].canRehear
  {
  }

  // Of a lasting client the scan will leave two permissions.
  lemma TwoLeft(s: State, e: Event)
    requires Inv(s) && TokensOk(s) && e.Accept? && Enabled(s, e) && Safe(s, e)
    requires e.key in s.table && Lasting(s, s.table[e.key])
    ensures Passed(Apply(s, e).pc) <= |Apply(s, e).slots| && Outlook(Apply(s, e), s.table[e.key]) >= 2
  {
    hide Apply, Enabled, Safe, Left, Listening, Holding;
    hide SlotsOk, PcOk, SocketsOk, RefsOk;
    var t, c, n := Apply(s, e), s.table[e.key], |s.slots|;
    var can := CanRehear(t, c);
    Reaccepted(s, e);
    assert TokenOk(s, c);
    if s.handlers[Handler(c, false)] > 0 {
      LeftSees(t.slots, 0, n, c, can);
    } else {
      var k :| 0 <= k < n && s.slots[k].client == Some(c) && !s.slots[k].pfd.gone;
      assert s.slots[k] == t.slots[k];
      HoldingIffSlot(s.slots, c);
      OnlySlot(s.slots, k, c);
      assert forall j :: 0 <= j < n ==> t.slots[j] == s.slots[j];
      LeftSees(t.slots, 0, k, c, can);
      LeftSees(t.slots, k + 1, n, c, false);
    }
  }

  lemma LeadsToTwoReaders(s: State, e: Event) returns (es: seq<Event>)
    requires Inv(s) && TokensOk(s) && e.Accept? && Enabled(s, e) && Safe(s, e)
    requires e.key in s.table && Lasting(s, s.table[e.key])
    ensures HarmlessFrom(Apply(s, e), es) && Onward(Apply(s, e), es).Some?
    ensures TwoReaders(Onward(Apply(s, e), es).value)
  {
    var t, c := Apply(s, e), s.table[e.key];
    InvStep(s, e);
    Reaccepted(s, e);
    TwoLeft(s, e);
    var first, u := FinishScan(t, c);
    var second, v := SecondRound(u, c);
    es := first + second;
    OnwardAppend(t, first, second);
    HandlerIsLive(v, Handler(c, false));
    assert MayRead(v, Handler(c, false), v.live[c].socket);
  }

  // ----- an accept that does not

  /**
   * The scan will take one of the two permissions of c before anyone uses it: either
   * c's old slot has hung up, or c has no old slot and the new one, which listens
   * already, absorbs can_rehear.
   */
  ghost predicate Doomed(s: State, c: ClientId) {
    && c in s.live && s.handlers[Handler(c, false)] == 0 && OthersOk(s, c)
    && (s.pc.Scanning? || s.pc.Dispatching?) && s.pc.i < |s.slots|
    && var n := |s.slots| - 1;
    && s.slots[n].client == Some(c) && s.slots[n].pfd.listens && !s.slots[n].pfd.ready && !s.slots[n].pfd.gone
    && ((Holding(s.slots[..n], c) == 0 && s.pc != Dispatching(n)) || exists k: nat :: HangsUp(s, c, k))
  }

  // The other clients have their one token.
  ghost predicate OthersOk(s: State, c: ClientId) {
    && (forall d :: d in s.live && d != c ==> TokenOk(s, d))
    && (forall i {:trigger s.slots[i]} :: 0 <= i < |s.slots| && s.slots[i].pfd.ready ==> s.slots[i].pfd.listens)
  }

  // Slot k, still to be answered, is the only old one of c, and has hung up.
  ghost predicate HangsUp(s: State, c: ClientId, k: nat)
    requires c in s.live && (s.pc.Scanning? || s.pc.Dispatching?) && s.slots != []
  {
    && s.pc.i <= k < |s.slots| - 1
    && s.slots[k].client == Some(c) && s.slots[k].pfd.gone
    && Holding(s.slots[..|s.slots| - 1], c) == 1
    && (s.pc == Dispatching(k) ==> !s.live[c].canRehear)
  }

  lemma DoomedFromStart(s: State, e: Event)
    requires Inv(s) && TokensOk(s) && e.Accept? && Enabled(s, e) && Safe(s, e)
    requires e.key in s.table && !Lasting(s, s.table[e.key])
    ensures Doomed(Apply(s, e), s.table[e.key])
  {
    hide Apply, Enabled, Safe, Listening, Holding;
    hide SlotsOk, PcOk, SocketsOk, RefsOk;
    var t, c, n := Apply(s, e), s.table[e.key], |s.slots|;
    Reaccepted(s, e);
    assert TokenOk(s, c);
    forall d | d in t.live && d != c
      ensures TokenOk(t, d)
    {
      assert TokenOk(s, d);
      HoldingSnoc(s.slots, t.slots[n], d);
      assert t.slots == s.slots + [t.slots[n]];
    }
    HoldingIffSlot(s.slots, c);
    if Holding(s.slots, c) == 1 {
      var k: nat :| k < n && s.slots[k].client == Some(c);
      assert HangsUp(t, c, k);
    }
  }

  // Slot i changes to x, in front of the last slot.
  lemma LastStays(slots: seq<Slot>, i: nat, x: Slot, c: ClientId)
    requires i < |slots| - 1
    ensures var n := |slots| - 1;
            Holding(slots[i := x][..n], c)
            == Holding(slots[..n], c) - (if slots[i].client == Some(c) then 1 else 0)
               + (if x.client == Some(c) then 1 else 0)
  {
    var n := |slots| - 1;
    assert slots[i := x][..n] == slots[..n][i := x];
    HoldingUpdate(slots[..n], i, x, c);
  }

  // The old slot of c is the one that hangs up.
  lemma OldSlotIs(s: State, c: ClientId, k: nat, i: nat)
    requires c in s.live && (s.pc.Scanning? || s.pc.Dispatching?) && s.slots != [] && HangsUp(s, c, k)
    requires i < |s.slots| - 1 && s.slots[i].client == Some(c)
    ensures i == k
  {
    var n := |s.slots| - 1;
    assert s.slots[..n][i] == s.slots[i] && s.slots[..n][k] == s.slots[k];
    OnlySlot(s.slots[..n], k, c);
  }

  lemma RehearOthers(s: State, c: ClientId)
    requires Inv(s) && OthersOk(s, c) && Enabled(s, RehearNext) && Safe(s, RehearNext)
    ensures OthersOk(Apply(s, RehearNext), c)
  {
    var i, t := s.pc.i, Apply(s, RehearNext);
    SlotAttached(s, i);
    forall d | d in t.live && d != c
      ensures TokenOk(t, d)
    {
      RehearToken(s, i, d);
    }
    hide TokenOk, Inv;
  }

  // What the first half of a slot's treatment means for c.
  ghost predicate Reheard(s: State, t: State, c: ClientId)
    requires s.pc.Scanning?
  {
    var i := s.pc.i;
    && i < |s.slots| == |t.slots| && t.pc == Dispatching(i) && t.slots == s.slots[i := t.slots[i]]
    && c in s.live && c in t.live && t.handlers == s.handlers
    && t.slots[i].client == s.slots[i].client && t.slots[i].pfd.gone == s.slots[i].pfd.gone
    && t.slots[i].pfd.ready == s.slots[i].pfd.ready
    && (s.slots[i].pfd.listens ==> t.slots[i] == s.slots[i])
    && (s.slots[i].client == Some(c) ==> !t.live[c].canRehear)
  }

  lemma RehearSlot(s: State, c: ClientId)
    requires Inv(s) && Enabled(s, RehearNext) && Safe(s, RehearNext) && c in s.live
    ensures Reheard(s, Apply(s, RehearNext), c)
  {
    hide TableOk, SocketsOk, RefsOk;
  }

  lemma DoomedRehear(s: State, c: ClientId)
    requires Inv(s) && Doomed(s, c) && Enabled(s, RehearNext) && Safe(s, RehearNext)
    ensures Doomed(Apply(s, RehearNext), c) || TokensOk(Apply(s, RehearNext))
  {
    var t := Apply(s, RehearNext);
    LastIsLive(s, c);
    RehearSlot(s, c);
    RehearOthers(s, c);
    hide *;
    if s.pc.i == |s.slots| - 1 {
      AloneAtLast(s, t, c);
      AllTokens(t, c);
    } else {
      ReheardBefore(s, t, c);
    }
  }

  lemma ReheardBefore(s: State, t: State, c: ClientId)
    requires s.pc.Scanning? && Reheard(s, t, c) && Doomed(s, c) && OthersOk(t, c) && s.pc.i != |s.slots| - 1
    ensures Doomed(t, c)
  {
    hide OthersOk, Holding;
    LastStays(s.slots, s.pc.i, t.slots[s.pc.i], c);
    if exists k: nat :: HangsUp(s, c, k) {
      var k: nat :| HangsUp(s, c, k);
      assert HangsUp(t, c, k);
    }
  }

  lemma AllTokens(s: State, c: ClientId)
    requires OthersOk(s, c) && (c in s.live ==> TokenOk(s, c))
    ensures TokensOk(s)
  {
    hide TokenOk;
  }

  // The last slot, the only one of c, has absorbed can_rehear.
  lemma AloneAtLast(s: State, t: State, c: ClientId)
    requires s.pc.Scanning? && Reheard(s, t, c) && Doomed(s, c) && s.pc.i == |s.slots| - 1
    ensures TokenOk(t, c)
  {
    hide OthersOk, TokenOk, Holding;
    assert t.slots[..|s.slots| - 1] == s.slots[..|s.slots| - 1];
    OneTokenLeft(t, c);
  }

  lemma DispatchOthers(s: State, c: ClientId)
    requires Inv(s) && OthersOk(s, c) && Enabled(s, DispatchNext) && Safe(s, DispatchNext)
    ensures OthersOk(Apply(s, DispatchNext), c)
  {
    var i, t := s.pc.i, Apply(s, DispatchNext);
    SlotAttached(s, i);
    forall d | d in t.live && d != c
      ensures TokenOk(t, d)
    {
      DispatchToken(s, i, d);
    }
    hide TokenOk, Inv;
  }

  // What answering slot i means for a client c: nothing if the slot is another's.
  ghost predicate Answered(s: State, t: State, c: ClientId)
    requires s.pc.Dispatching?
  {
    var i := s.pc.i;
    && i < |s.slots| == |t.slots| && t.pc == Scanning(i + 1) && t.slots == s.slots[i := t.slots[i]]
    && c in s.live && (c in t.live ==> t.live[c].canRehear == s.live[c].canRehear)
    && (s.slots[i].client != Some(c) || s.slots[i].pfd.gone ==>
          t.slots[i].client != Some(c) && t.handlers[Handler(c, false)] == s.handlers[Handler(c, false)])
  }

  lemma DispatchSlot(s: State, c: ClientId)
    requires Inv(s) && Enabled(s, DispatchNext) && Safe(s, DispatchNext) && c in s.live
    ensures Answered(s, Apply(s, DispatchNext), c)
  {
    hide TableOk, SocketsOk, RefsOk;
  }

  // The hang-up of c's old slot is answered.
  lemma HungUp(s: State, t: State, c: ClientId)
    requires s.pc.Dispatching? && Answered(s, t, c) && Doomed(s, c)
    requires s.pc.i < |s.slots| && s.slots[s.pc.i].client == Some(c)
    ensures c in t.live ==> TokenOk(t, c)
  {
    hide OthersOk, TokenOk, Holding;
    DoomedAnswer(s, c);
    hide HangsUp;
    LastStays(s.slots, s.pc.i, t.slots[s.pc.i], c);
    if c in t.live {
      OneTokenLeft(t, c);
    }
  }

  // The slot of another client is answered.
  lemma AnsweredElsewhere(s: State, t: State, c: ClientId)
    requires s.pc.Dispatching? && Answered(s, t, c) && Doomed(s, c) && OthersOk(t, c) && c in t.live
    requires s.pc.i < |s.slots| && s.slots[s.pc.i].client != Some(c)
    ensures Doomed(t, c)
  {
    hide OthersOk, Holding;
    DoomedAnswer(s, c);
    LastStays(s.slots, s.pc.i, t.slots[s.pc.i], c);
    if exists k: nat :: HangsUp(s, c, k) {
      var k: nat :| HangsUp(s, c, k);
      assert HangsUp(t, c, k);
    }
  }

  lemma StillLive(t: State, n: nat)
    requires Inv(t) && n < |t.slots| && t.slots[n].client.Some?
    ensures t.slots[n].client.value in t.live
  {
    SlotHolds(t, n);
  }

  lemma DoomedDispatch(s: State, c: ClientId)
    requires Inv(s) && Doomed(s, c) && Enabled(s, DispatchNext) && Safe(s, DispatchNext)
    ensures Doomed(Apply(s, DispatchNext), c) || TokensOk(Apply(s, DispatchNext))
  {
    var t := Apply(s, DispatchNext);
    LastIsLive(s, c);
    DispatchSlot(s, c);
    DispatchOthers(s, c);
    InvStep(s, DispatchNext);
    hide *;
    if s.slots[s.pc.i].client == Some(c) {
      HungUp(s, t, c);
      AllTokens(t, c);
    } else {
      AnsweredLive(s, t, c);
      AnsweredElsewhere(s, t, c);
    }
  }

  lemma LastIsLive(s: State, c: ClientId)
    requires Doomed(s, c)
    ensures c in s.live && OthersOk(s, c) && (s.pc.Dispatching? ==> s.pc.i < |s.slots|)
  {
    hide OthersOk, HangsUp;
  }

  lemma AnsweredLive(s: State, t: State, c: ClientId)
    requires s.pc.Dispatching? && Answered(s, t, c) && Doomed(s, c) && Inv(t)
    ensures c in t.live
  {
    DoomedAnswer(s, c);
    hide OthersOk, HangsUp, Inv;
    StillLive(t, |s.slots| - 1);
  }

  // The slot that is answered next is not the last, and is c's only if it has hung up.
  lemma DoomedAnswer(s: State, c: ClientId)
    requires Doomed(s, c) && s.pc.Dispatching?
    ensures var i, n := s.pc.i, |s.slots| - 1;
            && i < n
            && (s.slots[i].client == Some(c) ==>
                  s.slots[i].pfd.gone && !s.live[c].canRehear && Holding(s.slots[..n], c) == 1)
  {
    hide OthersOk, Holding;
    var i, n := s.pc.i, |s.slots| - 1;
    HoldingIffSlot(s.slots[..n], c);
    if exists k: nat :: HangsUp(s, c, k) {
      var k: nat :| HangsUp(s, c, k);
      if s.slots[i].client == Some(c) {
        OldSlotIs(s, c, k, i);
      }
    } else {
      assert s.slots[..n][i] == s.slots[i];
    }
  }

  // Only the last slot holds c, and it has the only token.
  lemma OneTokenLeft(t: State, c: ClientId)
    requires c in t.live && t.slots != [] && !t.live[c].canRehear && t.handlers[Handler(c, false)] == 0
    requires var n := |t.slots| - 1;
             t.slots[n].client == Some(c) && t.slots[n].pfd.listens && Holding(t.slots[..n], c) == 0
    ensures TokenOk(t, c)
  {
    var n := |t.slots| - 1;
    assert t.slots == t.slots[..n] + [t.slots[n]];
    HoldingSnoc(t.slots[..n], t.slots[n], c);
    HoldingIffSlot(t.slots[..n], c);
  }

  lemma HandlerOthers(s: State, c: ClientId, e: Event)
    requires OthersOk(s, c) && (e.Rearm? || e.Release?) && Enabled(s, e) && Safe(s, e)
    ensures OthersOk(Apply(s, e), c)
    ensures Apply(s, e).slots == s.slots && Apply(s, e).pc == s.pc
  {
    forall d | d in Apply(s, e).live && d != c
      ensures TokenOk(Apply(s, e), d)
    {
      HandlerToken(s, e, d);
    }
    hide TokenOk;
  }

  lemma HandlerElsewhere(s: State, c: ClientId, e: Event)
    requires (e.Rearm? || e.Release?) && Enabled(s, e) && Safe(s, e) && c in s.live
    requires s.handlers[Handler(c, false)] == 0
    ensures Apply(s, e).handlers[Handler(c, false)] == 0
    ensures c in Apply(s, e).live ==> Apply(s, e).live[c].canRehear == s.live[c].canRehear
  {
  }

  lemma HangsUpStill(s: State, t: State, c: ClientId)
    requires c in s.live && c in t.live && (s.pc.Scanning? || s.pc.Dispatching?) && s.slots != []
    requires t.slots == s.slots && t.pc == s.pc && t.live[c].canRehear == s.live[c].canRehear
    ensures (exists k: nat :: HangsUp(s, c, k)) ==> exists k: nat :: HangsUp(t, c, k)
  {
    if exists k: nat :: HangsUp(s, c, k) {
      var k: nat :| HangsUp(s, c, k);
      assert HangsUp(t, c, k);
    }
  }

  lemma DoomedHandler(s: State, c: ClientId, e: Event)
    requires Inv(s) && Doomed(s, c) && (e.Rearm? || e.Release?) && Enabled(s, e) && Safe(s, e)
    ensures Doomed(Apply(s, e), c)
  {
    var t := Apply(s, e);
    HandlerOthers(s, c, e);
    HandlerElsewhere(s, c, e);
    InvStep(s, e);
    hide OthersOk, Inv, Apply, Enabled, Safe, Holding, HangsUp;
    StillLive(t, |s.slots| - 1);
    HangsUpStill(s, t, c);
  }

  lemma DoomedStep(s: State, c: ClientId, e: Event)
    requires Inv(s) && Doomed(s, c) && Enabled(s, e) && Safe(s, e)
    ensures Doomed(Apply(s, e), c) || TokensOk(Apply(s, e))
  {
    match e
    case RehearNext => DoomedRehear(s, c);
    case DispatchNext => DoomedDispatch(s, c);
    case Rearm(_) => DoomedHandler(s, c, e);
    case Release(_) => DoomedHandler(s, c, e);
    case _ =>
  }

  // Between an accept and the end of the scan a client may be doomed; apart from
  // that all tokens are in order.
  ghost predicate Settled(s: State) {
    TokensOk(s) || exists c :: Doomed(s, c)
  }

  // Every step but a harmful accept keeps that.
  lemma SettledStep(s: State, e: Event)
    requires Inv(s) && Settled(s) && Enabled(s, e) && Safe(s, e) && Harmless(s, e)
    ensures Settled(Apply(s, e))
  {
    hide Inv, TokensOk, Doomed, Apply, Safe, Lasting;
    if TokensOk(s) {
      if Guarded(s, e) {
        TokenStep(s, e);
      } else {
        DoomedFromStart(s, e);
      }
    } else {
      var c :| Doomed(s, c);
      DoomedStep(s, c, e);
    }
  }

  lemma SettledIsSafe(s: State)
    requires Inv(s) && Settled(s)
    ensures !TwoReaders(s)
  {
    forall h, k, fd | MayRead(s, h, fd) && MayRead(s, k, fd)
      ensures h == k && s.handlers[h] == 1
    {
      assert h == Handler(h.client, false) && k == Handler(k.client, false);
      OneHandler(s, h.client);
    }
  }

  lemma OneHandler(s: State, c: ClientId)
    requires Settled(s) && c in s.live
    ensures s.handlers[Handler(c, false)] <= 1
  {
    if TokensOk(s) {
      assert TokenOk(s, c);
    } else {
      var d :| Doomed(s, d);
      hide HangsUp;
      assert c == d || TokenOk(s, c);
    }
  }

  lemma {:induction false} NeverTwoReaders(s: State, es: seq<Event>)
    requires Inv(s) && Settled(s) && HarmlessFrom(s, es)
    ensures Onward(s, es).Some? ==> !TwoReaders(Onward(s, es).value)
    decreases |es|
  {
    hide Inv, Settled, Apply, Enabled, Safe, Harmless, TwoReaders;
    if es == [] {
      SettledIsSafe(s);
    } else if Enabled(s, es[0]) && Safe(s, es[0]) {
      InvStep(s, es[0]);
      SettledStep(s, es[0]);
      NeverTwoReaders(Apply(s, es[0]), es[1..]);
    }
  }

  lemma {:induction false} AfterIsOnward(events: seq<Event>)
    ensures After(events) == Onward(INIT, events)
  {
    hide Apply, Enabled, Safe;
    if events != [] {
      var n := |events| - 1;
      AfterIsOnward(events[..n]);
      OnwardAppend(INIT, events[..n], [events[n]]);
      assert events == events[..n] + [events[n]] && [events[n]][1..] == [];
    }
  }

  /**
   * In a run in which every accepted key is new, or its client has neither a handler
   * that reads nor a slot without a pending hang-up, no two handlers ever read one
   * socket at once.
   */
  lemma HarmlessRunsHaveOneReader(events: seq<Event>)
    requires HarmlessFrom(INIT, events)
    ensures After(events).Some? ==> !TwoReaders(After(events).value)
  {
    assert After([]) == Some(INIT);
    RunKeepsInv([]);
    assert Settled(INIT);
    AfterIsOnward(events);
    NeverTwoReaders(INIT, events);
  }

  /**
   * That condition is exact: from a reachable state with all tokens in order, an
   * accept leads to two handlers that may read one socket, by harmless steps alone,
   * if and only if it is not harmless itself.
   */
  lemma {:induction false} AcceptLeadsToTwoReadersIff(events: seq<Event>, e: Event)
    requires After(events).Some? && TokensOk(After(events).value) && e.Accept? && Enabled(After(events).value, e)
    ensures Safe(After(events).value, e)
    ensures var s := After(events).value;
            (exists es :: HarmlessFrom(Apply(s, e), es) && Onward(Apply(s, e), es).Some?
                          && TwoReaders(Onward(Apply(s, e), es).value))
            <==> !Harmless(s, e)
  {
    var s := After(events).value;
    RunKeepsInv(events);
    InvIsSafe(s, e);
    InvStep(s, e);
    if Harmless(s, e) {
      SettledStep(s, e);
      forall es | HarmlessFrom(Apply(s, e), es)
        ensures Onward(Apply(s, e), es).Some? ==> !TwoReaders(Onward(Apply(s, e), es).value)
      {
        NeverTwoReaders(Apply(s, e), es);
      }
    } else {
      var es := LeadsToTwoReaders(s, e);
    }
  }
}
