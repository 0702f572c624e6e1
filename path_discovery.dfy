/**
 The three handlers of route discovery as classes over the two shared maps.
 Each method is one handler invocation, taken as atomic (the lock, the
 threads and the sleeps are not modelled), and is proved against the
 transition functions of DiscoverySpec through `DiscoveryTables.View()`.
 */
module PathDiscovery {
  import opened DiscoveryTypes
  import opened DiscoverySpec
  import DiscoveryLemmas

  /**
   The two dictionaries `rreq_list` and `rreq_thread_list`, owned by the
   coordinator and shared by reference with the reply matcher and with every
   retry routine. `routines` mirrors the state of each recorded routine.
   */
  class DiscoveryTables {
    var rreqList: map<Addr, seq<Packet>>
    var rreqThreadList: map<Addr, RreqRoutine>
    ghost var routines: map<Addr, Routine>
    /** Every routine ever recorded in `rreqThreadList`. */
    ghost var Repr: set<RreqRoutine>

    constructor ()
      ensures Valid() && rreqList == map[] && rreqThreadList == map[] && View() == Empty && Repr == {}
    {
      rreqList := map[];
      rreqThreadList := map[];
      routines := map[];
      Repr := {};
    }

    /** Tells the routine recorded for `d` to stop; only its `running` flag changes. */
    method Stop(d: Addr)
      requires Valid() && d in rreqThreadList
      modifies this`routines, {rreqThreadList[d]}`running
      ensures Valid() && routines == old(routines)[d := old(routines[d]).(running := false)]
      ensures !rreqThreadList[d].running
    {
      var r := rreqThreadList[d];
      r.Quit();
      routines := routines[d := routines[d].(running := false)];
      forall k | k in rreqThreadList
        ensures rreqThreadList[k] in Repr && rreqThreadList[k].dstIp == k && rreqThreadList[k].Value() == routines[k]
      {
        if k != d {
          assert rreqThreadList[k] != r;
        }
      }
    }

    /**
     Takes a pending destination's entries out of both maps, in the reply
     matcher's order: the buffer entry, then its routine is told to stop, then
     the routine's entry. Returns the buffer.
     */
    method Withdraw(a: Addr) returns (data: seq<Packet>)
      requires Valid() && a in rreqList
      modifies this`rreqList, this`rreqThreadList, this`routines, {rreqThreadList[a]}`running
      ensures Valid() && Repr == old(Repr)
      ensures rreqList == old(rreqList) - {a} && rreqThreadList == old(rreqThreadList) - {a}
      ensures View() == Forget(old(View()), a)
      ensures data == old(rreqList[a]) && !old(rreqThreadList[a]).running
    {
      data := rreqList[a];
      var thread := rreqThreadList[a];
      ghost var threads := rreqThreadList;
      rreqList := rreqList - {a};
      thread.Quit();
      rreqThreadList := rreqThreadList - {a};
      routines := routines - {a};
      assert rreqList.Keys == old(rreqList).Keys - {a};
      assert rreqThreadList.Keys == threads.Keys - {a};
      assert routines.Keys == old(routines).Keys - {a};
      forall k | k in rreqThreadList
        ensures rreqThreadList[k] in Repr && rreqThreadList[k].dstIp == k && rreqThreadList[k].Value() == routines[k]
      {
        assert k in threads && rreqThreadList[k] == threads[k] && threads[k] != thread;
      }
    }

    /** Appends `p` to the buffer of its destination, which is pending. */
    method Append(p: Packet)
      requires Valid() && p.dstIp in rreqList
      modifies this`rreqList
      ensures Valid() && rreqList == old(rreqList)[p.dstIp := old(rreqList[p.dstIp]) + [p]]
    {
      rreqList := rreqList[p.dstIp := rreqList[p.dstIp] + [p]];
      assert rreqList.Keys == old(rreqList).Keys;
    }

    /** Starts the bookkeeping of a new destination: the one-packet buffer `[p]` and the routine that retries it. */
    method Record(p: Packet, routine: RreqRoutine)
      requires Valid() && p.dstIp !in rreqList && routine !in Repr && routine.dstIp == p.dstIp
      modifies this`rreqList, this`rreqThreadList, this`routines, this`Repr
      ensures Valid() && Repr == old(Repr) + {routine}
      ensures rreqList == old(rreqList)[p.dstIp := [p]] && rreqThreadList == old(rreqThreadList)[p.dstIp := routine]
      ensures routines == old(routines)[p.dstIp := routine.Value()]
    {
      ghost var threads := rreqThreadList;
      rreqList := rreqList[p.dstIp := [p]];
      rreqThreadList := rreqThreadList[p.dstIp := routine];
      routines := routines[p.dstIp := routine.Value()];
      Repr := Repr + {routine};
      forall k | k in rreqThreadList
        ensures rreqThreadList[k] in Repr && rreqThreadList[k].dstIp == k && rreqThreadList[k].Value() == routines[k]
      {
        if k != p.dstIp {
          assert k in threads && rreqThreadList[k] == threads[k];
        }
      }
    }

    /** The maps as values, each recorded routine replaced by its observable state. */
    ghost function View(): State
      reads this
    {
      State(rreqList, routines)
    }

    /**
     The maps describe the same destinations, no buffer is empty, every
     recorded routine is filed under its own destination, `routines`
     holds its state, and a routine that is still running is the one
     recorded for its destination (at most one live routine per
     destination). Whether the view also satisfies `Inv` is a property
     of the transitions, proved in DiscoveryLemmas.
     */
    ghost predicate Valid()
      reads this, Repr
    {
      && rreqList.Keys == rreqThreadList.Keys
      && rreqThreadList.Keys == routines.Keys
      && (forall d :: d in rreqList ==> rreqList[d] != [])
      && (forall d :: d in rreqThreadList ==>
            rreqThreadList[d] in Repr && rreqThreadList[d].dstIp == d && rreqThreadList[d].Value() == routines[d])
      && (forall r :: r in Repr && r.running ==> r.dstIp in rreqThreadList && rreqThreadList[r.dstIp] == r)
    }
  }

  /** The per-destination retry routine; `count` is the counter of its run loop. */
  class RreqRoutine {
    const tables: DiscoveryTables
    const srcIp: Addr
    const dstIp: Addr
    const nodeMac: Mac
    var dsrHeader: DsrHeader
    var running: bool
    var count: nat
    /** Every broadcast handed to the transport by this routine. */
    ghost var sent: seq<Broadcast>

    ghost function Value(): Routine
      reads this
    {
      Routine(srcIp, dstIp, nodeMac, count, running, sent)
    }

    constructor (tables: DiscoveryTables, srcIp: Addr, dstIp: Addr, nodeMac: Mac)
      ensures this.tables == tables
      ensures dsrHeader.msgType == RreqMessageType
      ensures Value() == Routine(srcIp, dstIp, nodeMac, 0, true, [])
    {
      this.tables := tables;
      this.srcIp := srcIp;
      this.dstIp := dstIp;
      this.nodeMac := nodeMac;
      // The header starts as a bare type-2 header; its addresses are set before each send.
      dsrHeader := DsrHeader(RreqMessageType, "", "");
      running := true;
      count := 0;
      sent := [];
    }

    method Quit()
      modifies this`running
      ensures !running
    {
      running := false;
    }

    /** The routine is the one recorded for its destination. */
    ghost predicate Recorded()
      reads tables
    {
      dstIp in tables.rreqThreadList && tables.rreqThreadList[dstIp] == this
    }

    /** Builds an RREQ with dsn 1 and hop count 1, stamps the node MAC on the header and broadcasts both. */
    method SendRreq(neighbors: set<Addr>)
      modifies this`dsrHeader, this`sent
      ensures dsrHeader == old(dsrHeader).(srcMac := nodeMac, txMac := nodeMac)
      ensures sent == old(sent) + [Broadcast(RouteRequest(srcIp, dstIp, 1, 1), dsrHeader, neighbors)]
    {
      var rreq := RouteRequest(srcIp, dstIp, 1, 1);
      dsrHeader := dsrHeader.(srcMac := nodeMac, txMac := nodeMac);
      sent := sent + [Broadcast(rreq, dsrHeader, neighbors)];
    }

    /**
     One pass of the run loop: test `running`; below MaxRetries send an RREQ,
     otherwise delete this destination's entries where present and stop;
     then count the iteration. A stopped routine changes nothing. A running
     routine is the one recorded for its destination, so the deletes only
     ever remove its own entries.
     */
    method Step(neighbors: set<Addr>)
      requires tables.Valid() && dsrHeader.msgType == RreqMessageType && (running ==> Recorded())
      modifies this, tables
      ensures tables.Valid() && dsrHeader.msgType == RreqMessageType && (running ==> Recorded())
      ensures old(running) ==> tables.View() == RoutineStep(old(tables.View()), dstIp, neighbors)
      ensures old(running) ==> count == old(count) + 1
      ensures old(running) && old(count) < MaxRetries ==>
                running && sent == old(sent) + [Transmission(srcIp, dstIp, nodeMac, neighbors)]
      ensures old(running) && old(count) >= MaxRetries ==> !running && sent == old(sent)
      ensures !old(running) ==> unchanged(this) && unchanged(tables)
      ensures tables.Repr == old(tables.Repr)
      ensures var gaveUp := old(running) && old(count) >= MaxRetries;
        && tables.rreqList == (if gaveUp then old(tables.rreqList) - {dstIp} else old(tables.rreqList))
        && tables.rreqThreadList == (if gaveUp then old(tables.rreqThreadList) - {dstIp} else old(tables.rreqThreadList))
    {
      if running {
        if count < MaxRetries {
          Attempt(neighbors);
        } else {
          GiveUp();
        }
      }
    }

    /** A running iteration below MaxRetries: one RREQ, then the iteration is counted. */
    method Attempt(neighbors: set<Addr>)
      requires tables.Valid() && dsrHeader.msgType == RreqMessageType && running && Recorded() && count < MaxRetries
      modifies this, tables`routines
      ensures tables.Valid() && dsrHeader.msgType == RreqMessageType && Recorded()
      ensures tables.rreqList == old(tables.rreqList) && tables.rreqThreadList == old(tables.rreqThreadList) && tables.Repr == old(tables.Repr)
      ensures tables.View() == RoutineStep(old(tables.View()), dstIp, neighbors)
      ensures running && count == old(count) + 1
      ensures sent == old(sent) + [Transmission(srcIp, dstIp, nodeMac, neighbors)]
    {
      ghost var s := tables.View();
      SendRreq(neighbors);
      count := count + 1;
      tables.routines := tables.routines[dstIp := Value()];
      forall k | k in tables.rreqThreadList
        ensures tables.rreqThreadList[k] in tables.Repr && tables.rreqThreadList[k].dstIp == k && tables.rreqThreadList[k].Value() == tables.routines[k]
      {
        if k != dstIp {
          assert tables.rreqThreadList[k] != this;
        }
      }
      assert Value() == Retried(s.rreqThreadList[dstIp], neighbors);
      assert tables.View() == s.(rreqThreadList := s.rreqThreadList[dstIp := Value()]);
    }

    /**
     A running iteration at MaxRetries: delete the buffer if it is present and
     non-empty, delete the routine if it is present, stop, count the iteration.
     */
    method GiveUp()
      requires tables.Valid() && running && Recorded() && count >= MaxRetries
      modifies this`running, this`count, tables`rreqList, tables`rreqThreadList, tables`routines
      ensures tables.Valid() && tables.Repr == old(tables.Repr)
      ensures tables.View() == Cleanup(old(tables.View()), dstIp)
      ensures tables.rreqList == old(tables.rreqList) - {dstIp} && tables.rreqThreadList == old(tables.rreqThreadList) - {dstIp}
      ensures !running && count == old(count) + 1
    {
      // Each delete is guarded: the buffer by the truthiness of the stored list, the routine by presence.
      ghost var s := tables.View();
      var buffers, threads := tables.rreqList, tables.rreqThreadList;
      assert dstIp in buffers && buffers[dstIp] != [] && dstIp in s.rreqThreadList;
      tables.rreqList := if dstIp in buffers && buffers[dstIp] != [] then buffers - {dstIp} else buffers;
      tables.rreqThreadList := if dstIp in threads then threads - {dstIp} else threads;
      tables.routines := tables.routines - {dstIp};
      Quit();
      count := count + 1;
      assert tables.View() == Cleanup(s, dstIp) by {
        assert Cleanup(s, dstIp) == Forget(s, dstIp);
      }
      assert tables.rreqList.Keys == buffers.Keys - {dstIp};
      assert tables.rreqThreadList.Keys == threads.Keys - {dstIp};
      assert tables.routines.Keys == s.rreqThreadList.Keys - {dstIp};
      forall k | k in tables.rreqThreadList
        ensures tables.rreqThreadList[k] in tables.Repr && tables.rreqThreadList[k].dstIp == k && tables.rreqThreadList[k].Value() == tables.routines[k]
      {
        assert k in threads && tables.rreqThreadList[k] == threads[k] && threads[k] != this;
      }
    }

    /**
     The whole run loop of a routine that is never cancelled: exactly
     MaxRetries RREQs with fixed fields, then both entries of its destination
     are gone and it has stopped.
     */
    method Run(neighborsAt: nat -> set<Addr>)
      requires tables.Valid() && Inv(tables.View())
      requires dsrHeader.msgType == RreqMessageType && running && Recorded() && count == 0
      modifies this, tables
      ensures tables.Valid()
      ensures !running && count == MaxRetries + 1
      ensures sent == Attempts(old(Value()), neighborsAt, MaxRetries)
      ensures tables.View() == Forget(old(tables.View()), dstIp)
      ensures tables.Repr == old(tables.Repr)
      ensures tables.rreqList == old(tables.rreqList) - {dstIp} && tables.rreqThreadList == old(tables.rreqThreadList) - {dstIp}
    {
      ghost var s0 := tables.View();
      ghost var r0 := Value();
      while running
        invariant tables.Valid() && dsrHeader.msgType == RreqMessageType && (running ==> Recorded())
        invariant tables.Repr == old(tables.Repr)
        invariant tables.rreqList == if running then old(tables.rreqList) else old(tables.rreqList) - {dstIp}
        invariant tables.rreqThreadList == if running then old(tables.rreqThreadList) else old(tables.rreqThreadList) - {dstIp}
        invariant if running then count <= MaxRetries else count == MaxRetries + 1
        invariant tables.View() == RoutineSteps(s0, dstIp, neighborsAt, count)
        invariant sent == Attempts(r0, neighborsAt, if count <= MaxRetries then count else MaxRetries)
        decreases MaxRetries + 1 - count
      {
        ghost var k := count;
        Step(neighborsAt(count));
        assert RoutineSteps(s0, dstIp, neighborsAt, count) == RoutineStep(RoutineSteps(s0, dstIp, neighborsAt, k), dstIp, neighborsAt(k));
        assert k < MaxRetries ==> Attempts(r0, neighborsAt, count) == Attempts(r0, neighborsAt, k) + [Transmission(srcIp, dstIp, nodeMac, neighborsAt(k))];
      }
      DiscoveryLemmas.BoundedRetries(s0, dstIp, neighborsAt, MaxRetries + 1);
    }
  }

  /** The reply matcher; `appQueue` is what it has put on the application queue, oldest first. */
  class RrepHandler {
    const tables: DiscoveryTables
    var running: bool
    var appQueue: seq<Packet>

    constructor (tables: DiscoveryTables)
      ensures this.tables == tables && running && appQueue == []
    {
      this.tables := tables;
      running := true;
      appQueue := [];
    }

    method Quit()
      modifies this`running
      ensures !running
    {
      running := false;
    }

    /** Puts the packets of `data` on the application queue one by one, in order. */
    method Deliver(data: seq<Packet>)
      modifies this`appQueue
      ensures appQueue == old(appQueue) + data
    {
      var i := 0;
      while i < |data|
        invariant 0 <= i <= |data| && appQueue == old(appQueue) + data[..i]
      {
        appQueue := appQueue + [data[i]];
        i := i + 1;
      }
    }

    /**
     One reply for `addr`: if it is pending, remove both entries, stop its
     routine and put its buffered packets on the application queue in arrival
     order; otherwise change nothing.
     */
    method HandleReply(addr: Addr)
      requires tables.Valid()
      modifies this`appQueue, tables, (if addr in tables.rreqThreadList then {tables.rreqThreadList[addr]} else {})`running
      ensures tables.Valid()
      ensures tables.View() == Resolve(old(tables.View()), addr)
      ensures tables.rreqList == old(tables.rreqList) - {addr}
      ensures tables.rreqThreadList == old(tables.rreqThreadList) - {addr} && tables.Repr == old(tables.Repr)
      ensures appQueue == old(appQueue) + Released(old(tables.View()), addr)
      ensures addr in old(tables.rreqThreadList) ==> !old(tables.rreqThreadList[addr]).running
    {
      if addr in tables.rreqList {
        var data := tables.Withdraw(addr);
        Deliver(data);
      } else {
        assert tables.rreqThreadList == tables.rreqThreadList - {addr};
        assert tables.rreqList == tables.rreqList - {addr};
      }
    }

    /** The body of the reply loop: the reply `replies[i]`, in terms of the replies before it. */
    method NextReply(replies: seq<Addr>, i: nat, ghost s0: State, ghost q0: seq<Packet>,
                     ghost threads0: map<Addr, RreqRoutine>, ghost live0: map<Addr, bool>)
      requires i < |replies| && tables.Valid()
      requires tables.View() == ResolveAll(s0, replies[..i]) && appQueue == q0 + ReleasedAll(s0, replies[..i])
      requires tables.rreqThreadList.Items <= threads0.Items
      requires forall k :: k in tables.rreqThreadList ==> k in live0 && tables.rreqThreadList[k].running == live0[k]
      modifies this`appQueue, tables, tables.Repr`running
      ensures tables.Valid() && tables.Repr == old(tables.Repr)
      ensures tables.View() == ResolveAll(s0, replies[..i + 1]) && appQueue == q0 + ReleasedAll(s0, replies[..i + 1])
      ensures tables.rreqThreadList.Items <= threads0.Items
      ensures forall k :: k in tables.rreqThreadList ==> k in live0 && tables.rreqThreadList[k].running == live0[k]
    {
      HandleReply(replies[i]);
      ReplyNext(s0, replies, i);
    }

    /** The matcher's loop over the replies it receives while running. */
    method Run(replies: seq<Addr>)
      requires tables.Valid()
      modifies this`appQueue, tables, tables.Repr`running
      ensures tables.Valid() && tables.Repr == old(tables.Repr)
      ensures tables.View() == if running then ResolveAll(old(tables.View()), replies) else old(tables.View())
      ensures appQueue == old(appQueue) + if running then ReleasedAll(old(tables.View()), replies) else []
      ensures var gone := if running then (set a | a in replies) else {};
        && tables.rreqList == old(tables.rreqList) - gone
        && tables.rreqThreadList == old(tables.rreqThreadList) - gone
        && (forall a :: a in gone && a in old(tables.rreqThreadList) ==> !old(tables.rreqThreadList)[a].running)
      ensures forall k :: k in tables.rreqThreadList ==> tables.rreqThreadList[k].running == old(tables.rreqThreadList[k].running)
    {
      if !running {
        return;
      }
      ghost var s0, q0 := tables.View(), appQueue;
      ghost var threads0 := tables.rreqThreadList;
      ghost var live0 := map k | k in threads0 :: threads0[k].running;
      for i := 0 to |replies|
        invariant tables.Valid() && tables.Repr == old(tables.Repr)
        invariant tables.View() == ResolveAll(s0, replies[..i])
        invariant appQueue == q0 + ReleasedAll(s0, replies[..i])
        invariant tables.rreqThreadList.Items <= threads0.Items
        invariant forall k :: k in tables.rreqThreadList ==> k in live0 && tables.rreqThreadList[k].running == live0[k]
      {
        NextReply(replies, i, s0, q0, threads0, live0);
      }
      assert replies[..|replies|] == replies;
      ghost var gone := set a | a in replies;
      DiscoveryLemmas.ResolveAllDropsReplied(s0, replies);
      assert tables.rreqThreadList.Keys == threads0.Keys - gone;
      Withdrawn(tables, threads0, gone);
    }
  }

  /** One more reply of the matcher's loop is one more `Resolve` transition and one more `Released` batch. */
  lemma ReplyNext(s0: State, replies: seq<Addr>, i: nat)
    requires i < |replies|
    ensures var before := ResolveAll(s0, replies[..i]);
      && ResolveAll(s0, replies[..i + 1]) == Resolve(before, replies[i])
      && ReleasedAll(s0, replies[..i + 1]) == ReleasedAll(s0, replies[..i]) + Released(before, replies[i])
  {
    assert replies[..i + 1][..i] == replies[..i];
  }

  /**
   After the reply loop: the routines still recorded are those of `threads0`
   outside `gone`, and every routine filed under a key of `gone` has stopped,
   since a running routine is always the recorded one.
   */
  lemma Withdrawn(tables: DiscoveryTables, threads0: map<Addr, RreqRoutine>, gone: set<Addr>)
    requires tables.Valid()
    requires tables.rreqThreadList.Items <= threads0.Items && tables.rreqThreadList.Keys == threads0.Keys - gone
    requires forall a :: a in threads0 ==> threads0[a] in tables.Repr && threads0[a].dstIp == a
    ensures tables.rreqThreadList == threads0 - gone
    ensures forall a :: a in gone && a in threads0 ==> !threads0[a].running
  {
    Restriction(threads0, tables.rreqThreadList, gone);
    forall a | a in gone && a in threads0
      ensures !threads0[a].running
    {
      assert a !in tables.rreqThreadList;
    }
  }

  /** A map whose entries are entries of `m`, on the keys of `m` outside `gone`, is `m - gone`. */
  lemma Restriction<K, V>(m: map<K, V>, sub: map<K, V>, gone: set<K>)
    requires sub.Items <= m.Items && sub.Keys == m.Keys - gone
    ensures sub == m - gone
  {
    forall k | k in sub
      ensures sub[k] == m[k]
    {
      assert (k, sub[k]) in sub.Items;
    }
  }

  /** The coordinator: owns the maps and the reply matcher. */
  class PathDiscoveryHandler {
    const tables: DiscoveryTables
    const rrepHandler: RrepHandler
    /** The routing table's hardware address of this node. */
    const nodeMac: Mac
    var running: bool

    /** The shared maps are well formed, the matcher shares them, and every routine ever recorded was started here. */
    ghost predicate Valid()
      reads tables, tables.Repr
    {
      && tables.Valid()
      && rrepHandler.tables == tables
      && (forall r :: r in tables.Repr ==> Started(r))
    }

    /** A routine started by this coordinator: it shares the maps and carries a type-2 header. */
    ghost predicate Started(r: RreqRoutine)
      reads r
    {
      r.tables == tables && r.dsrHeader.msgType == RreqMessageType
    }

    constructor (nodeMac: Mac)
      ensures Valid() && fresh(tables) && fresh(rrepHandler) && this.nodeMac == nodeMac
      ensures running && rrepHandler.running && tables.View() == Empty
      ensures tables.Repr == {} && rrepHandler.appQueue == []
    {
      var t := new DiscoveryTables();
      tables := t;
      rrepHandler := new RrepHandler(t);
      this.nodeMac := nodeMac;
      running := true;
    }

    /**
     One unroutable packet: folded into the buffer of a pending destination,
     or a new one-packet buffer and a new running routine, sharing these
     maps, for a new destination.
     */
    method HandleUnroutable(p: Packet)
      requires Valid()
      modifies tables
      ensures Valid() && old(tables.Repr) <= tables.Repr && fresh(tables.Repr - old(tables.Repr))
      ensures tables.View() == Unroutable(old(tables.View()), p, nodeMac)
      ensures old(tables.rreqThreadList).Items <= tables.rreqThreadList.Items
      ensures p.dstIp in old(tables.rreqList) ==> tables.rreqThreadList == old(tables.rreqThreadList)
      ensures p.dstIp !in old(tables.rreqList) ==>
                && p.dstIp in tables.rreqThreadList
                && var r := tables.rreqThreadList[p.dstIp];
                   && fresh(r) && r !in old(tables.Repr) && Started(r) && r.running && r.count == 0
                   && tables.rreqThreadList == old(tables.rreqThreadList)[p.dstIp := r]
    {
      if p.dstIp in tables.rreqList {
        tables.Append(p);
      } else {
        StartDiscovery(p);
      }
    }

    /** A packet for a new destination: its one-packet buffer and a new routine for it, sharing these maps. */
    method StartDiscovery(p: Packet)
      requires Valid() && p.dstIp !in tables.rreqList
      modifies tables
      ensures Valid() && p.dstIp in tables.rreqThreadList
      ensures var r := tables.rreqThreadList[p.dstIp];
        && fresh(r) && Started(r) && r.running && r.count == 0
        && tables.Repr == old(tables.Repr) + {r}
        && tables.rreqThreadList == old(tables.rreqThreadList)[p.dstIp := r]
      ensures old(tables.rreqThreadList).Items <= tables.rreqThreadList.Items
      ensures tables.View() == Unroutable(old(tables.View()), p, nodeMac)
    {
      ghost var threads := tables.rreqThreadList;
      var routine := new RreqRoutine(tables, p.srcIp, p.dstIp, nodeMac);
      tables.Record(p, routine);
      Extension(threads, p.dstIp, routine);
    }

    /** The body of the coordinator's loop: the packet `events[i]`, in terms of the packets before it. */
    method NextEvent(events: seq<Packet>, i: nat, ghost s0: State, ghost repr0: set<RreqRoutine>, ghost threads0: map<Addr, RreqRoutine>)
      requires i < |events| && Valid() && repr0 <= tables.Repr
      requires tables.View() == Enqueue(s0, events[..i], nodeMac)
      requires threads0.Items <= tables.rreqThreadList.Items
      modifies tables
      ensures Valid() && repr0 <= tables.Repr && old(tables.Repr) <= tables.Repr && fresh(tables.Repr - old(tables.Repr))
      ensures tables.View() == Enqueue(s0, events[..i + 1], nodeMac)
      ensures threads0.Items <= tables.rreqThreadList.Items
    {
      HandleUnroutable(events[i]);
      EnqueueNext(s0, events, i, nodeMac);
    }

    /** The coordinator's loop over the unroutable packets it receives while running. */
    method Run(events: seq<Packet>)
      requires Valid()
      modifies tables
      ensures Valid() && old(tables.Repr) <= tables.Repr && fresh(tables.Repr - old(tables.Repr))
      ensures tables.View() == if running then Enqueue(old(tables.View()), events, nodeMac) else old(tables.View())
      ensures old(tables.rreqThreadList).Items <= tables.rreqThreadList.Items
    {
      ghost var s0 := tables.View();
      var i := 0;
      while running && i < |events|
        invariant 0 <= i <= |events| && (!running ==> i == 0)
        invariant Valid() && old(tables.Repr) <= tables.Repr
        invariant forall r :: r in tables.Repr ==> r in old(tables.Repr) || fresh(r)
        invariant tables.View() == Enqueue(s0, events[..i], nodeMac)
        invariant old(tables.rreqThreadList).Items <= tables.rreqThreadList.Items
      {
        ghost var before := tables.Repr;
        NextEvent(events, i, s0, old(tables.Repr), old(tables.rreqThreadList));
        forall r | r in tables.Repr
          ensures r in old(tables.Repr) || fresh(r)
        {
          if r !in before {
            assert r in tables.Repr - before;
          }
        }
        i := i + 1;
      }
      assert running ==> events[..i] == events;
    }

    /** Shutdown: stop this loop and the reply matcher, and tell every recorded routine to stop. */
    method Quit()
      requires Valid()
      modifies this`running, rrepHandler`running, tables`routines, tables.Repr`running
      ensures Valid() && !running && !rrepHandler.running
      ensures tables.rreqList == old(tables.rreqList) && tables.rreqThreadList == old(tables.rreqThreadList)
      ensures tables.View() == Shutdown(old(tables.View()))
      ensures forall d :: d in tables.rreqThreadList ==> !tables.rreqThreadList[d].running
      ensures forall r :: r in tables.Repr ==> !r.running
    {
      running := false;
      rrepHandler.Quit();
      ghost var s := tables.View();
      var toStop := tables.rreqThreadList.Keys;
      while toStop != {}
        invariant toStop <= tables.rreqThreadList.Keys
        invariant tables.Valid() && tables.routines == StopAllBut(s.rreqThreadList, toStop)
        modifies tables`routines, tables.Repr`running
        decreases toStop
      {
        var d :| d in toStop;
        DiscoveryLemmas.StopAllButStep(s.rreqThreadList, toStop, d);
        tables.Stop(d);
        toStop := toStop - {d};
      }
    }
  }

  /** Adding a new key keeps every entry of the map. */
  lemma Extension<K, V>(m: map<K, V>, k: K, v: V)
    requires k !in m
    ensures m.Items <= m[k := v].Items
  {
    forall e | e in m.Items
      ensures e in m[k := v].Items
    {
      assert e.0 in m && e.0 != k;
    }
  }

  /** One more packet of the coordinator's loop is one more `Unroutable` transition. */
  lemma EnqueueNext(s0: State, events: seq<Packet>, i: nat, nodeMac: Mac)
    requires i < |events|
    ensures Enqueue(s0, events[..i + 1], nodeMac) == Unroutable(Enqueue(s0, events[..i], nodeMac), events[i], nodeMac)
  {
    assert events[..i + 1][..i] == events[..i];
  }
}
