/**
 * The tracker's poll thread and its detached request handlers as a step
 * relation (tracker/network.c, tracker/client.c, handle_request in
 * tracker/protocol.c).
 *
 * Taken as one step each: a change of a reference count together with its test
 * for zero; accept together with the table lookup and the first reference; the
 * test and clearing of can_rehear for one slot; and the answer to one slot's
 * revents.  A handler may act between the last two.  Accept and getpeername succeed,
 * accept never returns a descriptor that a live client still uses, and poll
 * reports POLLIN only where it was asked for.
 */
module Protocol {
  import opened Wrappers

  type ClientId = nat      // the address of a struct client
  type Key = string        // "address:port" of the remote end

  datatype Client = Client(key: Key, socket: nat, refCount: int, canRehear: bool)

  // A pollfd: `listens` is POLLIN in events, `ready` is POLLIN in revents, and
  // `gone` is any of POLLHUP, POLLRDHUP, POLLERR, POLLNVAL in revents.
  datatype PollFd = PollFd(fd: int, listens: bool, ready: bool, gone: bool)

  const FREE_FD := PollFd(-1, false, false, false)

  // Slot k here is entry k + 1 of `fds` and `clients`; entry 0 is the listener.
  datatype Slot = Slot(pfd: PollFd, client: Option<ClientId>)

  // A detached thread inside handle_request; `rearmed` once it set can_rehear.
  datatype Handler = Handler(client: ClientId, rearmed: bool)

  // Where the poll thread is in the loop of server_run.
  datatype Pc = Polling | Accepting | Scanning(i: nat) | Dispatching(i: nat)

  datatype State = State(
    live: map<ClientId, Client>,
    table: map<Key, ClientId>,
    slots: seq<Slot>,
    handlers: multiset<Handler>,
    pc: Pc)

  datatype Event =
    | Poll(revents: seq<(bool, bool)>)   // (ready, gone) per slot
    | Interrupted                        // EINTR: revents stay as they were
    | Accept(key: Key, socket: nat, address: ClientId)
    | NoAccept
    | RehearNext                         // slot i may be listened to again
    | DispatchNext                       // slot i is answered
    | Clean
    | Rearm(client: ClientId)            // a handler sets can_rehear
    | Release(client: ClientId)          // that handler drops its reference

  const INIT := State(map[], map[], [], multiset{}, Polling)

  // ----- the steps

  function IncRef(s: State, c: ClientId): State
    requires c in s.live
  {
    s.(live := s.live[c := s.live[c].(refCount := s.live[c].refCount + 1)])
  }

  // client_dec_ref with delete_client
  function DecRef(s: State, c: ClientId): State
    requires c in s.live
  {
    var count := s.live[c].refCount - 1;
    if count <= 0 then s.(live := s.live - {c}, table := s.table - {s.live[c].key})
    else s.(live := s.live[c := s.live[c].(refCount := count)])
  }

  // client_get_or_create, without the reference the slot will take
  function GetOrCreate(s: State, key: Key, socket: nat, address: ClientId): (State, ClientId) {
    if key in s.table then (s, s.table[key])
    else (s.(live := s.live[address := Client(key, socket, 0, false)], table := s.table[key := address]), address)
  }

  // add_new_client_to_fds
  function AddSlot(s: State, c: ClientId): State
    requires c in s.live
  {
    var t := IncRef(s, c);
    t.(slots := t.slots + [Slot(PollFd(s.live[c].socket, true, false, false), Some(c))])
  }

  // The first half of an iteration of handle_incoming_data, for slot i.
  function Rehear(s: State, i: nat): State
    requires i < |s.slots| && Attached(s, i)
  {
    var c := s.slots[i].client.value;
    if s.live[c].canRehear then
      s.(live := s.live[c := s.live[c].(canRehear := false)],
         slots := s.slots[i := s.slots[i].(pfd := s.slots[i].pfd.(listens := true))])
    else s
  }

  // The second half.
  function Dispatch(s: State, i: nat): State
    requires i < |s.slots| && Attached(s, i)
  {
    var c, pfd := s.slots[i].client.value, s.slots[i].pfd;
    if pfd.gone then
      var t := DecRef(s, c);
      t.(slots := t.slots[i := Slot(FREE_FD, None)])
    else if pfd.ready then
      var t := IncRef(s, c);
      t.(slots := t.slots[i := s.slots[i].(pfd := pfd.(listens := false, ready := false))],
         handlers := t.handlers + multiset{Handler(c, false)})
    else s
  }

  // clean_fds from slot i on: a free slot takes the last slot's contents.
  function CleanFrom(slots: seq<Slot>, i: nat): seq<Slot>
    decreases |slots| - i
  {
    if i >= |slots| then slots
    else if slots[i].pfd.fd != -1 then CleanFrom(slots, i + 1)
    else if i == |slots| - 1 then slots[..i]
    else CleanFrom(slots[..|slots| - 1][i := slots[|slots| - 1]], i)
  }

  // Slot i has a client that is not deleted.
  predicate Attached(s: State, i: nat)
    requires i < |s.slots|
  {
    s.slots[i].client.Some? && s.slots[i].client.value in s.live
  }

  predicate Enabled(s: State, e: Event) {
    match e
    case Poll(revents) =>
      s.pc.Polling? && |revents| == |s.slots|
      && forall i :: 0 <= i < |s.slots| && revents[i].0 ==> s.slots[i].pfd.listens
    case Interrupted => s.pc.Polling?
    case Accept(key, socket, address) =>
      s.pc.Accepting? && address !in s.live && forall c :: c in s.live ==> s.live[c].socket != socket
    case NoAccept => s.pc.Accepting?
    case RehearNext => s.pc.Scanning? && s.pc.i < |s.slots|
    case DispatchNext => s.pc.Dispatching?
    case Clean => s.pc.Scanning? && s.pc.i == |s.slots|
    case Rearm(c) => Handler(c, false) in s.handlers
    case Release(c) => Handler(c, true) in s.handlers
  }

  // What the code dereferences; invariants below show it always holds.
  predicate Safe(s: State, e: Event) {
    match e
    case Accept(key, _, _) => key in s.table ==> s.table[key] in s.live
    case RehearNext => s.pc.Scanning? && s.pc.i < |s.slots| && (s.slots[s.pc.i].pfd.fd >= 0 ==> Attached(s, s.pc.i))
    case DispatchNext => s.pc.Dispatching? && s.pc.i < |s.slots| && Attached(s, s.pc.i)
    case Rearm(c) => c in s.live
    case Release(c) => c in s.live
    case _ => true
  }

  function SetRevents(slots: seq<Slot>, revents: seq<(bool, bool)>): (r: seq<Slot>)
    requires |revents| == |slots|
  {
    seq(|slots|, i requires 0 <= i < |slots| =>
      slots[i].(pfd := slots[i].pfd.(ready := revents[i].0, gone := revents[i].1)))
  }

  function Apply(s: State, e: Event): State
    requires Enabled(s, e) && Safe(s, e)
  {
    match e
    case Poll(revents) => s.(slots := SetRevents(s.slots, revents), pc := Accepting)
    case Interrupted => s.(pc := Accepting)
    case Accept(key, socket, address) =>
      var (t, c) := GetOrCreate(s, key, socket, address);
      AddSlot(t, c).(pc := Scanning(0))
    case NoAccept => s.(pc := Scanning(0))
    case RehearNext =>
      if s.slots[s.pc.i].pfd.fd < 0 then s.(pc := Scanning(s.pc.i + 1))
      else Rehear(s, s.pc.i).(pc := Dispatching(s.pc.i))
    case DispatchNext => Dispatch(s, s.pc.i).(pc := Scanning(s.pc.i + 1))
    case Clean => s.(slots := CleanFrom(s.slots, 0), pc := Polling)
    case Rearm(c) =>
      s.(live := s.live[c := s.live[c].(canRehear := true)],
         handlers := s.handlers - multiset{Handler(c, false)} + multiset{Handler(c, true)})
    case Release(c) => DecRef(s, c).(handlers := s.handlers - multiset{Handler(c, true)})
  }

  // ----- counting references and tokens

  // The slots that hold client c.
  function Holding(slots: seq<Slot>, c: ClientId): nat {
    if slots == [] then 0
    else (if slots[|slots| - 1].client == Some(c) then 1 else 0) + Holding(slots[..|slots| - 1], c)
  }

  // The slots that hold c and listen for its input.
  function Listening(slots: seq<Slot>, c: ClientId): nat {
    if slots == [] then 0
    else (if slots[|slots| - 1].client == Some(c) && slots[|slots| - 1].pfd.listens then 1 else 0)
         + Listening(slots[..|slots| - 1], c)
  }

  // Everything that holds a reference to c: poll slots, and handlers that have
  // not released it yet.
  function Holders(s: State, c: ClientId): nat {
    Holding(s.slots, c) + s.handlers[Handler(c, false)] + s.handlers[Handler(c, true)]
  }

  // The permissions to read c's socket next: a listening slot, can_rehear, or a
  // handler that has not set it yet.
  function Tokens(s: State, c: ClientId): nat
    requires c in s.live
  {
    Listening(s.slots, c) + (if s.live[c].canRehear then 1 else 0) + s.handlers[Handler(c, false)]
  }

  // ----- lemmas about the counts

  lemma {:induction false} HoldingUpdate(slots: seq<Slot>, i: nat, x: Slot, c: ClientId)
    requires i < |slots|
    ensures Holding(slots[i := x], c)
         == Holding(slots, c) - (if slots[i].client == Some(c) then 1 else 0) + (if x.client == Some(c) then 1 else 0)
    ensures Listening(slots[i := x], c)
         == Listening(slots, c) - (if slots[i].client == Some(c) && slots[i].pfd.listens then 1 else 0)
            + (if x.client == Some(c) && x.pfd.listens then 1 else 0)
  {
    var n := |slots| - 1;
    if i < n {
      assert slots[i := x][..n] == slots[..n][i := x];
      HoldingUpdate(slots[..n], i, x, c);
    } else {
      assert slots[i := x][..n] == slots[..n];
    }
  }

  lemma HoldingSnoc(slots: seq<Slot>, x: Slot, c: ClientId)
    ensures Holding(slots + [x], c) == Holding(slots, c) + if x.client == Some(c) then 1 else 0
    ensures Listening(slots + [x], c) == Listening(slots, c) + if x.client == Some(c) && x.pfd.listens then 1 else 0
  {
    assert (slots + [x])[..|slots|] == slots;
  }

  lemma {:induction false} HoldingIffSlot(slots: seq<Slot>, c: ClientId)
    ensures Holding(slots, c) > 0 <==> exists i :: 0 <= i < |slots| && slots[i].client == Some(c)
    ensures Listening(slots, c) <= Holding(slots, c)
  {
    if slots != [] {
      var n := |slots| - 1;
      HoldingIffSlot(slots[..n], c);
      if Holding(slots[..n], c) > 0 {
        var i :| 0 <= i < n && slots[..n][i].client == Some(c);
        assert slots[i].client == Some(c);
      }
      if exists i :: 0 <= i < |slots| && slots[i].client == Some(c) {
        var i :| 0 <= i < |slots| && slots[i].client == Some(c);
        assert i < n ==> slots[..n][i].client == Some(c);
      }
    }
  }

  lemma {:induction false} ListeningAt(slots: seq<Slot>, i: nat, c: ClientId)
    requires i < |slots| && slots[i].client == Some(c) && slots[i].pfd.listens
    ensures Listening(slots, c) >= 1
  {
    var n := |slots| - 1;
    if i < n {
      ListeningAt(slots[..n], i, c);
    }
  }

  lemma {:induction false} RevertsKeepCounts(slots: seq<Slot>, revents: seq<(bool, bool)>, c: ClientId)
    requires |revents| == |slots|
    ensures Holding(SetRevents(slots, revents), c) == Holding(slots, c)
    ensures Listening(SetRevents(slots, revents), c) == Listening(slots, c)
  {
    if slots != [] {
      var n := |slots| - 1;
      RevertsKeepCounts(slots[..n], revents[..n], c);
      assert SetRevents(slots, revents)[..n] == SetRevents(slots[..n], revents[..n]);
    }
  }

  // ----- clean_fds

  predicate Kept(x: Slot) {
    x.pfd.fd != -1
  }

  function KeptOnly(slots: seq<Slot>): multiset<Slot> {
    if slots == [] then multiset{}
    else KeptOnly(slots[..|slots| - 1]) + if Kept(slots[|slots| - 1]) then multiset{slots[|slots| - 1]} else multiset{}
  }

  lemma {:induction false} KeptOnlyUpdate(slots: seq<Slot>, i: nat, x: Slot)
    requires i < |slots| && !Kept(slots[i])
    ensures KeptOnly(slots[i := x]) == KeptOnly(slots) + if Kept(x) then multiset{x} else multiset{}
  {
    var n := |slots| - 1;
    if i < n {
      assert slots[i := x][..n] == slots[..n][i := x];
      KeptOnlyUpdate(slots[..n], i, x);
    } else {
      assert slots[i := x][..n] == slots[..n];
    }
  }

  lemma {:induction false} KeptOnlyAll(slots: seq<Slot>)
    requires forall k :: 0 <= k < |slots| ==> Kept(slots[k])
    ensures KeptOnly(slots) == multiset(slots)
  {
    if slots != [] {
      var n := |slots| - 1;
      KeptOnlyAll(slots[..n]);
      assert slots == slots[..n] + [slots[n]];
    }
  }

  // clean_fds leaves exactly the multiset of slots whose descriptor is not -1.
  lemma {:induction false} CleanKeeps(slots: seq<Slot>, i: nat)
    requires forall k :: 0 <= k < i && k < |slots| ==> Kept(slots[k])
    ensures multiset(CleanFrom(slots, i)) == KeptOnly(slots)
    ensures forall x :: x in CleanFrom(slots, i) ==> Kept(x)
    ensures |CleanFrom(slots, i)| <= |slots|
    decreases |slots| - i
  {
    var n := |slots| - 1;
    if i >= |slots| {
      KeptOnlyAll(slots);
    } else if Kept(slots[i]) {
      CleanKeeps(slots, i + 1);
    } else if i == n {
      KeptOnlyAll(slots[..i]);
    } else {
      var moved := slots[..n][i := slots[n]];
      KeptOnlyUpdate(slots[..n], i, slots[n]);
      CleanKeeps(moved, i);
    }
  }

  // A free slot holds no client, so cleaning changes no count.
  lemma {:induction false} CleanKeepsCounts(slots: seq<Slot>, i: nat, c: ClientId)
    requires forall x :: x in slots && !Kept(x) ==> x.client == None
    ensures Holding(CleanFrom(slots, i), c) == Holding(slots, c)
    ensures Listening(CleanFrom(slots, i), c) == Listening(slots, c)
    decreases |slots| - i
  {
    var n := |slots| - 1;
    if i >= |slots| {
    } else if Kept(slots[i]) {
      CleanKeepsCounts(slots, i + 1, c);
    } else if i == n {
    } else {
      var moved := slots[..n][i := slots[n]];
      HoldingUpdate(slots[..n], i, slots[n], c);
      assert slots[i] in slots;
      forall x | x in moved
        ensures x in slots
      {
        var k :| 0 <= k < |moved| && moved[k] == x;
        assert x == slots[if k == i then n else k];
      }
      CleanKeepsCounts(moved, i, c);
    }
  }
}
