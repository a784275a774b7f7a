/**
 * The poll thread's arrays and the reference counts as they are updated in
 * place (tracker/network.c, tracker/client.c), each operation tied to the step
 * of the protocol it performs.
 */
module Network {
  import opened Wrappers
  import opened Protocol

  const INITIAL_PEERFD_BUFSIZE := 1000

  class Server {
    var fds: array<PollFd>
    var clients: array<Option<ClientId>>
    var nfds: nat
    var fdsBufferSize: nat

    // The client structs by address, and the table of client.c.
    var live: map<ClientId, Client>
    var table: map<Key, ClientId>

    // The detached handler threads.
    ghost var handlers: multiset<Handler>

    ghost predicate Valid()
      reads this
    {
      fds.Length == clients.Length == fdsBufferSize && 1 <= nfds <= fdsBufferSize
    }

    ghost function Slots(): (r: seq<Slot>)
      requires Valid()
      reads this, fds, clients
    {
      seq(nfds - 1, i requires 0 <= i < nfds - 1 reads this, fds, clients
                      requires fds.Length == clients.Length >= nfds => Slot(fds[i + 1], clients[i + 1]))
    }

    ghost function Abs(pc: Pc): State
      requires Valid()
      reads this, fds, clients
    {
      State(live, table, Slots(), handlers, pc)
    }

    // server_run, up to the loop
    constructor (listener: nat)
      ensures Valid() && fresh(fds) && fresh(clients)
      ensures Abs(Polling) == INIT
    {
      nfds, fdsBufferSize := 1, INITIAL_PEERFD_BUFSIZE;
      fds := new PollFd[INITIAL_PEERFD_BUFSIZE](_ => FREE_FD);
      clients := new Option<ClientId>[INITIAL_PEERFD_BUFSIZE](_ => None);
      live, table, handlers := map[], map[], multiset{};
      new;
      fds[0] := PollFd(listener, true, false, false);
    }

    // client_inc_ref
    method ClientIncRef(c: ClientId, ghost pc: Pc)
      requires Valid() && c in live
      modifies this`live
      ensures Abs(pc) == IncRef(old(Abs(pc)), c)
    {
      live := live[c := live[c].(refCount := live[c].refCount + 1)];
    }

    // client_dec_ref with delete_client
    method ClientDecRef(c: ClientId, ghost pc: Pc)
      requires Valid() && c in live
      modifies this`live, this`table
      ensures Abs(pc) == DecRef(old(Abs(pc)), c)
    {
      live := live[c := live[c].(refCount := live[c].refCount - 1)];
      if live[c].refCount <= 0 {
        table := table - {live[c].key};
        live := live - {c};
        assert live == old(live) - {c};
      }
    }

    // The reallocation in add_new_client_to_fds.
    method GrowFds()
      requires Valid()
      modifies this`fds, this`clients, this`fdsBufferSize
      ensures Valid() && fresh(fds) && fresh(clients)
      ensures fdsBufferSize == 2 * old(fdsBufferSize)
      ensures Slots() == old(Slots())
    {
      var f := new PollFd[2 * fdsBufferSize](_ => FREE_FD);
      var c := new Option<ClientId>[2 * fdsBufferSize](_ => None);
      for i := 0 to fdsBufferSize
        modifies f, c
        invariant forall j :: 0 <= j < i ==> f[j] == fds[j] && c[j] == clients[j]
      {
        f[i] := fds[i];
        c[i] := clients[i];
      }
      fdsBufferSize := fdsBufferSize * 2;
      fds, clients := f, c;
    }

    method AddNewClientToFds(c: ClientId)
      requires Valid() && c in live
      modifies this`fds, this`clients, this`fdsBufferSize, this`nfds, this`live, fds, clients
      ensures Valid()
      ensures (fds == old(fds) || fresh(fds)) && (clients == old(clients) || fresh(clients))
      ensures Abs(Accepting) == AddSlot(old(Abs(Accepting)), c)
    {
      if nfds + 1 > fdsBufferSize {
        GrowFds();
      }
      ghost var before := Slots();
      ClientIncRef(c, Accepting);
      clients[nfds] := Some(c);
      fds[nfds] := PollFd(live[c].socket, true, false, false);
      nfds := nfds + 1;
      assert Slots() == before + [Slot(fds[nfds - 1], clients[nfds - 1])];
    }

    // handle_new_connection with client_get_or_create
    method HandleNewConnection(key: Key, socket: nat, address: ClientId)
      requires Valid() && Enabled(Abs(Accepting), Accept(key, socket, address))
               && Safe(Abs(Accepting), Accept(key, socket, address))
      modifies this`fds, this`clients, this`fdsBufferSize, this`nfds, this`live, this`table, fds, clients
      ensures Valid()
      ensures Abs(Scanning(0)) == Apply(old(Abs(Accepting)), Accept(key, socket, address))
    {
      var c;
      if key in table {
        c := table[key];
      } else {
        c := address;
        live := live[c := Client(key, socket, 0, false)];
        table := table[key := c];
      }
      AddNewClientToFds(c);
    }

    // start_server_reqhandler_thread
    method StartRequestHandler(c: ClientId, ghost pc: Pc)
      requires Valid() && c in live
      modifies this`live, this`handlers
      ensures Abs(pc) == IncRef(old(Abs(pc)), c).(handlers := old(handlers) + multiset{Handler(c, false)})
    {
      ClientIncRef(c, pc);
      handlers := handlers + multiset{Handler(c, false)};
    }

    // One iteration of the loop in handle_incoming_data: two steps of the poll
    // thread, here with no handler in between.
    method HandleIncomingSlot(i: nat)
      requires Valid() && 1 <= i < nfds && (fds[i].fd >= 0 ==> clients[i].Some? && clients[i].value in live)
      modifies this`live, this`table, this`handlers, fds, clients
      ensures Valid()
      ensures var s := Apply(old(Abs(Scanning(i - 1))), RehearNext);
              Abs(Scanning(i)) == if old(fds[i].fd) < 0 then s else Apply(s, DispatchNext)
    {
      SlotAt(i);
      hide Rehear, Dispatch;
      if fds[i].fd < 0 {
        return;
      }
      RehearSlot(i);
      DispatchSlot(i);
    }

    lemma SlotAt(i: nat)
      requires Valid() && 1 <= i < nfds
      ensures Slots()[i - 1] == Slot(fds[i], clients[i])
    {
    }

    method RehearSlot(i: nat)
      requires Valid() && 1 <= i < nfds && fds[i].fd >= 0 && clients[i].Some? && clients[i].value in live
      modifies this`live, fds
      ensures Abs(Dispatching(i - 1)) == Apply(old(Abs(Scanning(i - 1))), RehearNext)
      ensures fds[i].fd == old(fds[i].fd) && live.Keys == old(live.Keys)
    {
      hide IncRef, DecRef;
      SlotAt(i);
      ghost var before := Slots();
      var c := clients[i].value;
      if live[c].canRehear {
        live := live[c := live[c].(canRehear := false)];
        fds[i] := fds[i].(listens := true);
        assert Slots() == before[i - 1 := Slot(fds[i], clients[i])];
      }
    }

    method DispatchSlot(i: nat)
      requires Valid() && 1 <= i < nfds && clients[i].Some? && clients[i].value in live
      modifies this`live, this`table, this`handlers, fds, clients
      ensures Abs(Scanning(i)) == Apply(old(Abs(Dispatching(i - 1))), DispatchNext)
    {
      hide DecRef;
      SlotAt(i);
      ghost var before := Slots();
      if fds[i].gone {
        ClientDecRef(clients[i].value, Dispatching(i - 1));
        clients[i] := None;
        fds[i] := FREE_FD;
        assert Slots() == before[i - 1 := Slot(fds[i], clients[i])];
      } else if fds[i].ready {
        fds[i] := fds[i].(listens := false, ready := false);
        assert Slots() == before[i - 1 := Slot(fds[i], clients[i])];
        StartRequestHandler(clients[i].value, Dispatching(i - 1));
      }
    }

    // One round of the inner loop of clean_fds: the free slot i takes the last
    // slot's contents, or is dropped if it is the last.
    method FillSlot(i: nat)
      requires Valid() && 1 <= i < nfds && fds[i].fd == -1
      modifies this`nfds, fds, clients
      ensures Valid() && nfds == old(nfds) - 1 && i < fds.Length
      ensures i == nfds ==> Slots() == old(Slots())[..i - 1] && fds[i].fd != -1
      ensures i < nfds ==> Slots() == old(Slots())[..nfds - 1][i - 1 := old(Slots())[nfds - 1]]
    {
      ghost var slots := Slots();
      if i == nfds - 1 {
        nfds := nfds - 1;
        fds[i] := fds[i].(fd := -2);
        assert Slots() == slots[..i - 1];
      } else {
        fds[i] := fds[nfds - 1];
        clients[i] := clients[nfds - 1];
        nfds := nfds - 1;
        assert Slots() == slots[..nfds - 1][i - 1 := slots[nfds - 1]];
      }
    }

    // The inner loop of clean_fds.
    method FillAll(i: nat, ghost goal: seq<Slot>)
      requires Valid() && 1 <= i < nfds && CleanFrom(Slots(), i - 1) == goal
      modifies this`nfds, fds, clients
      ensures Valid() && i <= nfds <= old(nfds)
      ensures if i < nfds then CleanFrom(Slots(), i) == goal else Slots() == goal
    {
      while fds[i].fd == -1
        invariant Valid() && 1 <= i <= nfds <= old(nfds) && i < fds.Length
        invariant i < nfds ==> CleanFrom(Slots(), i - 1) == goal
        invariant i == nfds ==> Slots() == goal && fds[i].fd != -1
        decreases nfds
      {
        SlotAt(i);
        FillSlot(i);
      }
      if i < nfds {
        SlotAt(i);
      }
    }

    // clean_fds: terminates, and what it leaves is the specified compaction.
    method CleanFds()
      requires Valid()
      modifies this`nfds, fds, clients
      ensures Valid() && Slots() == CleanFrom(old(Slots()), 0)
    {
      ghost var goal := CleanFrom(Slots(), 0);
      var i := 1;
      while i < nfds
        invariant Valid() && 1 <= i && nfds <= old(nfds)
        invariant if i <= nfds then CleanFrom(Slots(), i - 1) == goal else Slots() == goal
        decreases nfds - i
      {
        FillAll(i, goal);
        i := i + 1;
      }
    }

    // The end of handle_request: allow the poll thread to listen again.
    method SetCanRehear(c: ClientId, ghost pc: Pc)
      requires Valid() && Enabled(Abs(pc), Rearm(c)) && Safe(Abs(pc), Rearm(c))
      modifies this`live, this`handlers
      ensures Abs(pc) == Apply(old(Abs(pc)), Rearm(c))
    {
      live := live[c := live[c].(canRehear := true)];
      handlers := handlers - multiset{Handler(c, false)} + multiset{Handler(c, true)};
    }

    // The end of handle_request: drop the handler's reference.
    method FinishRequest(c: ClientId, ghost pc: Pc)
      requires Valid() && Enabled(Abs(pc), Release(c)) && Safe(Abs(pc), Release(c))
      modifies this`live, this`table, this`handlers
      ensures Abs(pc) == Apply(old(Abs(pc)), Release(c))
    {
      ClientDecRef(c, pc);
      handlers := handlers - multiset{Handler(c, true)};
    }
  }
}
