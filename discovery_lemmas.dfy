/**
 What the discovery transitions guarantee: the invariant under every
 interleaving, the fold and new-discovery rules, FIFO and exactly-once
 release, bounded retries, idempotent cleanup, shutdown, and that every
 transition touches only its own destination.
 */
module DiscoveryLemmas {
  import opened DiscoveryTypes
  import opened DiscoverySpec

  lemma EmptySatisfiesInv()
    ensures Inv(Empty)
  {
  }

  /**
   Coordinator: a packet for a pending destination is appended to its buffer
   and starts nothing; a packet for a new destination gets a one-packet buffer
   and a fresh running routine with count 0. The invariant is kept.
   */
  lemma UnroutableRules(s: State, p: Packet, nodeMac: Mac)
    requires Inv(s)
    ensures var t := Unroutable(s, p, nodeMac);
      && Inv(t)
      && (p.dstIp in s.rreqList ==>
            t.rreqList[p.dstIp] == s.rreqList[p.dstIp] + [p] && t.rreqThreadList == s.rreqThreadList)
      && (p.dstIp !in s.rreqList ==>
            && t.rreqList[p.dstIp] == [p]
            && t.rreqThreadList[p.dstIp] == Routine(p.srcIp, p.dstIp, nodeMac, 0, true, [])
            && t.rreqList.Keys == s.rreqList.Keys + {p.dstIp})
  {
    var t := Unroutable(s, p, nodeMac);
    if p.dstIp in s.rreqList {
      forall d, i | d in t.rreqList && 0 <= i < |t.rreqList[d]|
        ensures t.rreqList[d][i].dstIp == d
      {
        if d == p.dstIp && i == |s.rreqList[d]| {
        } else {
          assert t.rreqList[d][i] == s.rreqList[d][i];
        }
      }
    }
  }

  /** A routine iteration keeps the invariant. */
  lemma RoutineStepKeepsInv(s: State, d: Addr, neighbors: set<Addr>)
    requires Inv(s)
    ensures Inv(RoutineStep(s, d, neighbors))
  {
    if d in s.rreqThreadList && s.rreqThreadList[d].running {
      var r := s.rreqThreadList[d];
      if r.count < MaxRetries {
        var r' := r.(count := r.count + 1, sent := r.sent + [Transmission(r.srcIp, r.dstIp, r.nodeMac, neighbors)]);
        assert SentByRoutine(r') by {
          forall i | 0 <= i < |r'.sent|
            ensures r'.sent[i].rreq == RouteRequest(r'.srcIp, r'.dstIp, 1, 1)
            ensures r'.sent[i].header == DsrHeader(RreqMessageType, r'.nodeMac, r'.nodeMac)
          {
            if i < |r.sent| { assert r'.sent[i] == r.sent[i]; }
          }
        }
      } else {
        assert RoutineStep(s, d, neighbors) == Forget(s, d);
      }
    }
  }

  /** A reply, matched or stale, keeps the invariant. */
  lemma ResolveKeepsInv(s: State, a: Addr)
    requires Inv(s)
    ensures Inv(Resolve(s, a))
  {
  }

  /** Shutdown keeps the invariant. */
  lemma ShutdownKeepsInv(s: State)
    requires Inv(s)
    ensures Inv(Shutdown(s))
  {
    var t := Shutdown(s);
    forall d | d in t.rreqThreadList
      ensures t.rreqThreadList[d].dstIp == d && PendingRoutine(t.rreqThreadList[d])
    {
      var r := s.rreqThreadList[d];
      assert t.rreqThreadList[d] == r.(running := false);
      assert PendingRoutine(r);
    }
  }

  /** With every routine still pending nothing is stopped; telling one more to stop is one update of the map. */
  lemma StopAllButStep(m: map<Addr, Routine>, pending: set<Addr>, d: Addr)
    requires d in m && d in pending
    ensures StopAllBut(m, m.Keys) == m
    ensures StopAllBut(m, pending)[d := m[d].(running := false)] == StopAllBut(m, pending - {d})
  {
  }

  /**
   The invariant holds after any interleaving of unroutable packets, replies,
   routine iterations and shutdown: both maps keep the same keys, no buffer is
   empty, and each destination has exactly one routine recorded.
   */
  lemma {:induction false} InvariantHolds(s: State, events: seq<Event>, nodeMac: Mac)
    requires Inv(s)
    ensures Inv(Execute(s, events, nodeMac))
  {
    if events != [] {
      var u := Execute(s, events[..|events| - 1], nodeMac);
      InvariantHolds(s, events[..|events| - 1], nodeMac);
      match events[|events| - 1]
      case NoRoute(p) => UnroutableRules(u, p, nodeMac);
      case Rrep(a) => ResolveKeepsInv(u, a);
      case Retry(d, nb) => RoutineStepKeepsInv(u, d, nb);
      case Stop => ShutdownKeepsInv(u);
    }
  }

  /** Every transition leaves the entries of all other destinations as they were. */
  lemma OtherDestinationsUntouched(s: State, k: Addr, p: Packet, nodeMac: Mac, a: Addr, d: Addr, neighbors: set<Addr>)
    ensures k != p.dstIp ==> SameAt(Unroutable(s, p, nodeMac), s, k)
    ensures k != a ==> SameAt(Resolve(s, a), s, k)
    ensures k != d ==> SameAt(RoutineStep(s, d, neighbors), s, k)
  {
  }

  lemma AddressedConcat(xs: seq<Packet>, ys: seq<Packet>, d: Addr)
    ensures Addressed(xs + ys, d) == Addressed(xs, d) + Addressed(ys, d)
    decreases |ys|
  {
    if ys != [] {
      var ys' := ys[..|ys| - 1];
      assert (xs + ys)[..|xs + ys| - 1] == xs + ys';
      assert (xs + ys)[|xs + ys| - 1] == ys[|ys| - 1];
      var last := ys[|ys| - 1];
      var tail := if last.dstIp == d then [last] else [];
      AddressedConcat(xs, ys', d);
      assert Addressed(xs + ys, d) == Addressed(xs + ys', d) + tail;
      assert Addressed(ys, d) == Addressed(ys', d) + tail;
    } else {
      assert xs + ys == xs;
    }
  }

  /** A non-empty sequence is its prefix followed by its last element. */
  lemma SplitLast<T>(s: seq<T>)
    requires s != []
    ensures s[..|s| - 1] + [s[|s| - 1]] == s
  {
  }

  /** A buffer holding only packets for `e` contributes all of itself to `e` and nothing to any other destination. */
  lemma {:induction false} AddressedUniform(ps: seq<Packet>, e: Addr, d: Addr)
    requires forall i :: 0 <= i < |ps| ==> ps[i].dstIp == e
    ensures Addressed(ps, d) == if e == d then ps else []
  {
    if ps != [] {
      var init, last := ps[..|ps| - 1], ps[|ps| - 1];
      assert forall i :: 0 <= i < |init| ==> init[i] == ps[i];
      AddressedUniform(init, e, d);
      assert last.dstIp == e;
      if e == d {
        SplitLast(ps);
      } else {
        assert Addressed(ps, d) == [] + [];
      }
    }
  }

  /**
   FIFO buffering: after the coordinator has handled `events`, a reply for `d`
   would release the packets buffered before, followed by exactly the packets
   of `events` addressed to `d`, in arrival order; `d` is pending exactly when
   it was pending already or some event was addressed to it.
   */
  lemma {:induction false} EnqueueBuffersInArrivalOrder(s: State, events: seq<Packet>, nodeMac: Mac, d: Addr)
    ensures var t := Enqueue(s, events, nodeMac);
      && (d in t.rreqList <==> d in s.rreqList || Addressed(events, d) != [])
      && Released(t, d) == Released(s, d) + Addressed(events, d)
  {
    if events != [] {
      var init := events[..|events| - 1];
      EnqueueBuffersInArrivalOrder(s, init, nodeMac, d);
    }
  }

  /** The coordinator's loop keeps the invariant. */
  lemma {:induction false} EnqueueKeepsInv(s: State, events: seq<Packet>, nodeMac: Mac)
    requires Inv(s)
    ensures Inv(Enqueue(s, events, nodeMac))
  {
    if events != [] {
      EnqueueKeepsInv(s, events[..|events| - 1], nodeMac);
      UnroutableRules(Enqueue(s, events[..|events| - 1], nodeMac), events[|events| - 1], nodeMac);
    }
  }

  /**
   At most one discovery per destination: however many packets for `d`
   arrive, a routine already recorded for `d` stays the same, and a new
   destination gets exactly one fresh routine, started for the source of
   the first packet addressed to it.
   */
  lemma {:induction false} EnqueueStartsOneDiscoveryPerDestination(s: State, events: seq<Packet>, nodeMac: Mac, d: Addr)
    requires Inv(s)
    ensures var t := Enqueue(s, events, nodeMac);
      && (d in t.rreqThreadList <==> d in s.rreqThreadList || Addressed(events, d) != [])
      && (d in s.rreqThreadList ==> t.rreqThreadList[d] == s.rreqThreadList[d])
      && (d !in s.rreqThreadList && Addressed(events, d) != [] ==>
            t.rreqThreadList[d] == Routine(Addressed(events, d)[0].srcIp, d, nodeMac, 0, true, []))
  {
    if events != [] {
      var init := events[..|events| - 1];
      var e := events[|events| - 1];
      var u := Enqueue(s, init, nodeMac);
      EnqueueStartsOneDiscoveryPerDestination(s, init, nodeMac, d);
      EnqueueKeepsInv(s, init, nodeMac);
      assert u.rreqList.Keys == u.rreqThreadList.Keys;
      assert Enqueue(s, events, nodeMac) == Unroutable(u, e, nodeMac);
      assert Addressed(events, d) == Addressed(init, d) + (if e.dstIp == d then [e] else []);
      if Addressed(init, d) != [] {
        assert Addressed(events, d)[0] == Addressed(init, d)[0];
      }
    }
  }

  /** Two packets for the same new destination start one discovery and leave a buffer of two. */
  lemma FoldTwoPackets(p1: Packet, p2: Packet, nodeMac: Mac)
    requires p1.dstIp == p2.dstIp
    ensures var t := Enqueue(Empty, [p1, p2], nodeMac);
      && t.rreqThreadList.Keys == {p1.dstIp}
      && t.rreqList == map[p1.dstIp := [p1, p2]]
  {
    assert [p1, p2][..1] == [p1];
    assert [p1][..0] == [];
    var t1 := Unroutable(Empty, p1, nodeMac);
    assert Enqueue(Empty, [p1], nodeMac) == t1;
    assert Enqueue(Empty, [p1, p2], nodeMac) == Unroutable(t1, p2, nodeMac);
    assert t1.rreqList == map[p1.dstIp := [p1]];
    assert [p1] + [p2] == [p1, p2];
  }

  /** On any state a sequence of replies removes exactly the replied destinations from the buffer map. */
  lemma {:induction false} ResolveAllDropsReplied(s: State, replies: seq<Addr>)
    ensures ResolveAll(s, replies).rreqList == s.rreqList - (set a | a in replies)
  {
    if replies != [] {
      var init := replies[..|replies| - 1];
      var e := replies[|replies| - 1];
      ResolveAllDropsReplied(s, init);
      assert (set a | a in replies) == (set a | a in init) + {e} by {
        assert replies == init + [e];
      }
      ForgetOneMore(s.rreqList, (set a | a in init), e);
    }
  }

  /** On an invariant state a sequence of replies forgets exactly the replied destinations. */
  lemma {:induction false} ResolveAllForgetsReplied(s: State, replies: seq<Addr>)
    requires Inv(s)
    ensures ResolveAll(s, replies) == State(s.rreqList - (set a | a in replies), s.rreqThreadList - (set a | a in replies))
    decreases |replies|
  {
    if replies != [] {
      var init := replies[..|replies| - 1];
      var e := replies[|replies| - 1];
      var gone := set a | a in init;
      ResolveAllForgetsReplied(s, init);
      var u := ResolveAll(s, init);
      assert (set a | a in replies) == gone + {e} by {
        assert replies == init + [e];
      }
      assert (e in u.rreqList) == (e in u.rreqThreadList);
      ForgetOneMore(s.rreqList, gone, e);
      ForgetOneMore(s.rreqThreadList, gone, e);
    }
  }

  /** Removing the keys `gone`, then `e` where it is still present, removes `gone + {e}`. */
  lemma ForgetOneMore<V>(m: map<Addr, V>, gone: set<Addr>, e: Addr)
    ensures (if e in m - gone then (m - gone) - {e} else m - gone) == m - (gone + {e})
  {
  }

  /**
   Exactly-once release: over any sequence of replies, the packets of `d` put
   back on the application queue are its whole buffer, in buffered order,
   once if some reply named `d`, and none otherwise.
   */
  lemma {:induction false} ExactlyOnceRelease(s: State, replies: seq<Addr>, d: Addr)
    requires Inv(s)
    ensures Addressed(ReleasedAll(s, replies), d) == if d in replies then Released(s, d) else []
  {
    if replies != [] {
      var init := replies[..|replies| - 1];
      var e := replies[|replies| - 1];
      assert replies == init + [e];
      assert (d in replies) == (d in init || d == e);
      ExactlyOnceRelease(s, init, d);
      ResolveAllForgetsReplied(s, init);
      var u := ResolveAll(s, init);
      AddressedConcat(ReleasedAll(s, init), Released(u, e), d);
      assert Addressed(Released(u, e), d) == if e == d && d !in init then Released(s, d) else [] by {
        if e in u.rreqList {
          assert e !in init && u.rreqList[e] == s.rreqList[e];
          AddressedUniform(s.rreqList[e], e, d);
        } else {
          assert Released(u, e) == [];
        }
      }
    }
  }

  /**
   Bounded retries: a fresh routine that is never cancelled sends one RREQ
   with fixed fields in each of its first MaxRetries iterations; the next
   iteration deletes both entries of its destination, and later iterations
   change nothing.
   */
  lemma {:induction false} BoundedRetries(s: State, d: Addr, neighborsAt: nat -> set<Addr>, n: nat)
    requires Inv(s) && d in s.rreqThreadList
    requires s.rreqThreadList[d].count == 0 && s.rreqThreadList[d].running
    ensures var r := s.rreqThreadList[d];
      n <= MaxRetries ==>
        RoutineSteps(s, d, neighborsAt, n)
          == s.(rreqThreadList := s.rreqThreadList[d := r.(count := n, sent := Attempts(r, neighborsAt, n))])
    ensures n > MaxRetries ==> RoutineSteps(s, d, neighborsAt, n) == Forget(s, d)
  {
    assert d in s.rreqList && PendingRoutine(s.rreqThreadList[d]);
    if n <= MaxRetries {
      RetriesBeforeGivingUp(s, d, neighborsAt, n);
    } else if n == MaxRetries + 1 {
      RetriesBeforeGivingUp(s, d, neighborsAt, MaxRetries);
      var u := RoutineSteps(s, d, neighborsAt, MaxRetries);
      assert u.rreqList == s.rreqList;
      assert RoutineSteps(s, d, neighborsAt, n) == Cleanup(u, d);
      assert u.rreqThreadList - {d} == s.rreqThreadList - {d};
    } else {
      BoundedRetries(s, d, neighborsAt, n - 1);
      assert RoutineSteps(s, d, neighborsAt, n) == RoutineStep(Forget(s, d), d, neighborsAt(n - 1));
    }
  }

  /** The first MaxRetries iterations of a fresh routine each record one more RREQ and change nothing else. */
  lemma {:induction false} RetriesBeforeGivingUp(s: State, d: Addr, neighborsAt: nat -> set<Addr>, n: nat)
    requires d in s.rreqThreadList && n <= MaxRetries
    requires s.rreqThreadList[d].count == 0 && s.rreqThreadList[d].running && s.rreqThreadList[d].sent == []
    ensures var r := s.rreqThreadList[d];
      RoutineSteps(s, d, neighborsAt, n)
        == s.(rreqThreadList := s.rreqThreadList[d := r.(count := n, sent := Attempts(r, neighborsAt, n))])
  {
    var r := s.rreqThreadList[d];
    if n == 0 {
      assert r.(count := 0, sent := Attempts(r, neighborsAt, 0)) == r;
      assert s.rreqThreadList[d := r] == s.rreqThreadList;
    } else {
      RetriesBeforeGivingUp(s, d, neighborsAt, n - 1);
      var u := RoutineSteps(s, d, neighborsAt, n - 1);
      assert RoutineSteps(s, d, neighborsAt, n) == RoutineStep(u, d, neighborsAt(n - 1));
      var next := r.(count := n, sent := Attempts(r, neighborsAt, n));
      assert u.rreqThreadList[d] == r.(count := n - 1, sent := Attempts(r, neighborsAt, n - 1));
      assert Retried(u.rreqThreadList[d], neighborsAt(n - 1)) == next;
      assert u.rreqThreadList[d := next] == s.rreqThreadList[d := next];
    }
  }

  /** On an invariant state the truthiness guard is a presence check, so cleanup forgets the destination ... */
  lemma CleanupForgets(s: State, d: Addr)
    requires Inv(s)
    ensures Cleanup(s, d) == Forget(s, d)
    ensures Inv(Forget(s, d))
  {
  }

  /** ... and running cleanup again, or for a destination already gone, changes nothing. */
  lemma CleanupIdempotent(s: State, d: Addr)
    ensures Cleanup(Cleanup(s, d), d) == Cleanup(s, d)
    ensures d !in s.rreqList && d !in s.rreqThreadList ==> Cleanup(s, d) == s
  {
  }

  /** A reply for an address that is not pending changes nothing and releases nothing. */
  lemma StaleReply(s: State, a: Addr)
    requires a !in s.rreqList
    ensures Resolve(s, a) == s && Released(s, a) == []
  {
  }

  /**
   A matched reply removes both entries and releases the whole buffer; the
   routine it cancels can no longer act on the maps, and a second reply for
   the same address is stale.
   */
  lemma MatchedReply(s: State, a: Addr, neighbors: set<Addr>)
    requires Inv(s) && a in s.rreqList
    ensures var t := Resolve(s, a);
      && a !in t.rreqList && a !in t.rreqThreadList
      && Released(s, a) == s.rreqList[a] && Released(s, a) != []
      && RoutineStep(t, a, neighbors) == t
      && Resolve(t, a) == t && Released(t, a) == []
  {
  }

  /** Exhaustion and a late reply agree on one removal: after exhaustion the reply is stale. */
  lemma ReplyAfterExhaustionIsStale(s: State, d: Addr, neighbors: set<Addr>)
    requires Inv(s) && d in s.rreqThreadList
    requires s.rreqThreadList[d].running && s.rreqThreadList[d].count == MaxRetries
    ensures var t := RoutineStep(s, d, neighbors);
      t == Forget(s, d) && Resolve(t, d) == t && Released(t, d) == []
  {
  }

  /** Shutdown stops every recorded routine, keeps both maps' contents, and no routine acts afterwards. */
  lemma ShutdownStopsRoutines(s: State, d: Addr, neighbors: set<Addr>)
    ensures Shutdown(s).rreqList == s.rreqList
    ensures Shutdown(s).rreqThreadList.Keys == s.rreqThreadList.Keys
    ensures forall k :: k in s.rreqThreadList ==> Shutdown(s).rreqThreadList[k] == s.rreqThreadList[k].(running := false)
    ensures RoutineStep(Shutdown(s), d, neighbors) == Shutdown(s)
  {
  }

  /**
   One packet X for D: if the reply for D comes after two RREQs it releases
   [X] and the third RREQ is never sent; if no reply comes, the fourth
   iteration drops X together with both entries.
   */
  lemma SingleDiscoveryScenario(x: Packet, nodeMac: Mac, neighborsAt: nat -> set<Addr>)
    ensures var s := Unroutable(Empty, x, nodeMac);
      var afterTwo := RoutineSteps(s, x.dstIp, neighborsAt, 2);
      && x.dstIp in afterTwo.rreqThreadList
      && |afterTwo.rreqThreadList[x.dstIp].sent| == 2
      && Released(afterTwo, x.dstIp) == [x]
      && RoutineStep(Resolve(afterTwo, x.dstIp), x.dstIp, neighborsAt(2)) == Empty
      && RoutineSteps(s, x.dstIp, neighborsAt, MaxRetries + 1) == Empty
  {
    var s := Unroutable(Empty, x, nodeMac);
    UnroutableRules(Empty, x, nodeMac);
    BoundedRetries(s, x.dstIp, neighborsAt, 2);
    BoundedRetries(s, x.dstIp, neighborsAt, MaxRetries + 1);
    assert Forget(s, x.dstIp) == Empty;
  }
}
