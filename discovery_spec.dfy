/**
 The route-discovery bookkeeping as a pure state machine over the two maps
 shared by the coordinator, the retry routines and the reply matcher:
 `rreqList` (destination to buffered packets) and `rreqThreadList`
 (destination to its retry routine). Each handler invocation is one atomic
 transition; the classes in module PathDiscovery are proved against these
 functions, and the lemmas here state what the transitions guarantee.
 */
module DiscoverySpec {
  import opened DiscoveryTypes

  /** Number of RREQs a routine sends before it gives up. */
  const MaxRetries: nat := 3

  /** The broadcast `send_rreq` hands to the transport: fixed dsn and hop count, node MAC in both header fields. */
  function Transmission(src: Addr, dst: Addr, nodeMac: Mac, neighbors: set<Addr>): Broadcast
  {
    Broadcast(RouteRequest(src, dst, 1, 1), DsrHeader(RreqMessageType, nodeMac, nodeMac), neighbors)
  }

  /** The observable state of one retry routine; `count` is the loop counter of its run loop, `sent` what it broadcast. */
  datatype Routine = Routine(srcIp: Addr, dstIp: Addr, nodeMac: Mac, count: nat, running: bool, sent: seq<Broadcast>)

  datatype State = State(rreqList: map<Addr, seq<Packet>>, rreqThreadList: map<Addr, Routine>)

  const Empty: State := State(map[], map[])

  /** Every RREQ the routine sent carries its own addresses, dsn 1, hop count 1 and the node MAC as header addresses. */
  predicate SentByRoutine(r: Routine)
  {
    forall i :: 0 <= i < |r.sent| ==>
      r.sent[i].rreq == RouteRequest(r.srcIp, r.dstIp, 1, 1) &&
      r.sent[i].header == DsrHeader(RreqMessageType, r.nodeMac, r.nodeMac)
  }

  /** A routine still recorded for its destination: at most MaxRetries iterations done, one RREQ per iteration. */
  predicate PendingRoutine(r: Routine)
  {
    r.count <= MaxRetries && |r.sent| == r.count && SentByRoutine(r)
  }

  /**
   One destination's entries: a non-empty buffer of packets for `d` that
   starts with the packet that started the discovery, and `d`'s own routine.
   */
  predicate EntryOk(d: Addr, buffer: seq<Packet>, r: Routine)
  {
    && buffer != []
    && buffer[0].srcIp == r.srcIp
    && (forall i :: 0 <= i < |buffer| ==> buffer[i].dstIp == d)
    && r.dstIp == d
    && PendingRoutine(r)
  }

  /** The bookkeeping invariant: both maps have the same keys and every entry is well formed. */
  predicate Inv(s: State)
  {
    && s.rreqList.Keys == s.rreqThreadList.Keys
    && (forall d :: d in s.rreqList ==> EntryOk(d, s.rreqList[d], s.rreqThreadList[d]))
  }

  /** Coordinator: one "no route for this packet" event. */
  function Unroutable(s: State, p: Packet, nodeMac: Mac): (t: State)
    ensures p.dstIp in t.rreqList
    ensures p.dstIp in s.rreqList ==> t.rreqThreadList == s.rreqThreadList
  {
    if p.dstIp in s.rreqList then
      s.(rreqList := s.rreqList[p.dstIp := s.rreqList[p.dstIp] + [p]])
    else
      State(s.rreqList[p.dstIp := [p]],
            s.rreqThreadList[p.dstIp := Routine(p.srcIp, p.dstIp, nodeMac, 0, true, [])])
  }

  /** Both entries of a destination removed. */
  function Forget(s: State, d: Addr): State
  {
    State(s.rreqList - {d}, s.rreqThreadList - {d})
  }

  /**
   Exhaustion cleanup: each delete is guarded. The buffer guard is the
   truthiness of the stored list, so an empty list would be kept; the
   routine guard is presence.
   */
  function Cleanup(s: State, d: Addr): (t: State)
    ensures t.rreqThreadList.Keys == s.rreqThreadList.Keys - {d}
    ensures t.rreqList.Keys == s.rreqList.Keys - {d} || t.rreqList == s.rreqList
  {
    State(if d in s.rreqList && s.rreqList[d] != [] then s.rreqList - {d} else s.rreqList,
          if d in s.rreqThreadList then s.rreqThreadList - {d} else s.rreqThreadList)
  }

  /** One iteration of the run loop of the routine recorded for `d`, with `neighbors` read from the table. */
  function RoutineStep(s: State, d: Addr, neighbors: set<Addr>): (t: State)
    ensures t.rreqList.Keys <= s.rreqList.Keys && t.rreqThreadList.Keys <= s.rreqThreadList.Keys
  {
    if d !in s.rreqThreadList || !s.rreqThreadList[d].running then s
    else
      var r := s.rreqThreadList[d];
      if r.count < MaxRetries then s.(rreqThreadList := s.rreqThreadList[d := Retried(r, neighbors)])
      else Cleanup(s, d)
  }

  /** A routine after an iteration that sent an RREQ to `neighbors`. */
  function Retried(r: Routine, neighbors: set<Addr>): Routine
  {
    r.(count := r.count + 1, sent := r.sent + [Transmission(r.srcIp, r.dstIp, r.nodeMac, neighbors)])
  }

  /** `n` iterations of `d`'s routine; iteration `k` reads the neighbor set `neighborsAt(k)`. */
  function RoutineSteps(s: State, d: Addr, neighborsAt: nat -> set<Addr>, n: nat): State
  {
    if n == 0 then s else RoutineStep(RoutineSteps(s, d, neighborsAt, n - 1), d, neighborsAt(n - 1))
  }

  /** Reply matcher: the new maps after a reply for `a`. */
  function Resolve(s: State, a: Addr): (t: State)
    ensures t.rreqList == s.rreqList - {a}
    ensures a in s.rreqList ==> t.rreqThreadList == s.rreqThreadList - {a}
  {
    if a in s.rreqList then Forget(s, a) else s
  }

  /** Reply matcher: the packets a reply for `a` puts back on the application queue. */
  function Released(s: State, a: Addr): (r: seq<Packet>)
    ensures a in s.rreqList ==> s.rreqList == Resolve(s, a).rreqList[a := r]
    ensures a !in s.rreqList ==> r == []
  {
    if a in s.rreqList then s.rreqList[a] else []
  }

  /** The routines of `m`, every one told to stop except those recorded for a destination in `pending`. */
  function StopAllBut(m: map<Addr, Routine>, pending: set<Addr>): map<Addr, Routine>
  {
    map d | d in m :: if d in pending then m[d] else m[d].(running := false)
  }

  /** Coordinator shutdown: every recorded routine is told to stop; nothing is removed. */
  function Shutdown(s: State): (t: State)
    ensures t.rreqList == s.rreqList && t.rreqThreadList.Keys == s.rreqThreadList.Keys
    ensures forall d :: d in t.rreqThreadList ==> !t.rreqThreadList[d].running
  {
    s.(rreqThreadList := StopAllBut(s.rreqThreadList, {}))
  }

  /** The coordinator's loop over a sequence of unroutable packets. */
  function Enqueue(s: State, events: seq<Packet>, nodeMac: Mac): (t: State)
    ensures t.rreqList.Keys == s.rreqList.Keys + (set p | p in events :: p.dstIp)
  {
    if events == [] then s
    else Unroutable(Enqueue(s, events[..|events| - 1], nodeMac), events[|events| - 1], nodeMac)
  }

  /** The reply matcher's loop: the maps after a sequence of replies ... */
  function ResolveAll(s: State, replies: seq<Addr>): (t: State)
    ensures t.rreqList.Keys <= s.rreqList.Keys
  {
    if replies == [] then s
    else
      assert replies == replies[..|replies| - 1] + [replies[|replies| - 1]];
      Resolve(ResolveAll(s, replies[..|replies| - 1]), replies[|replies| - 1])
  }

  /** ... and everything it put back on the application queue, in order. */
  function ReleasedAll(s: State, replies: seq<Addr>): (r: seq<Packet>)
    ensures forall q :: q in r ==> q in Buffered(s)
  {
    if replies == [] then []
    else
      ResolveAllKeepsBuffers(s, replies[..|replies| - 1]);
      ReleasedAll(s, replies[..|replies| - 1])
      + Released(ResolveAll(s, replies[..|replies| - 1]), replies[|replies| - 1])
  }

  /** Replies only take buffers out: a buffer still present after them is the one that was there before. */
  lemma {:induction false} ResolveAllKeepsBuffers(s: State, replies: seq<Addr>)
    ensures forall k :: k in ResolveAll(s, replies).rreqList ==>
              k in s.rreqList && ResolveAll(s, replies).rreqList[k] == s.rreqList[k]
  {
    if replies != [] {
      ResolveAllKeepsBuffers(s, replies[..|replies| - 1]);
    }
  }

  /** Every packet buffered in `s`, whatever its destination. */
  function Buffered(s: State): set<Packet>
  {
    set d, q | d in s.rreqList && q in s.rreqList[d] :: q
  }

  /** The packets of `ps` addressed to `d`, in their order in `ps`. */
  function Addressed(ps: seq<Packet>, d: Addr): (r: seq<Packet>)
    ensures |r| <= |ps|
    ensures forall i :: 0 <= i < |r| ==> r[i].dstIp == d
    ensures forall q :: q in r <==> q in ps && q.dstIp == d
  {
    if ps == [] then []
    else Addressed(ps[..|ps| - 1], d) + (if ps[|ps| - 1].dstIp == d then [ps[|ps| - 1]] else [])
  }

  /** The first `n` broadcasts of a routine that is never cancelled. */
  function Attempts(r: Routine, neighborsAt: nat -> set<Addr>, n: nat): (a: seq<Broadcast>)
    ensures |a| == n
    ensures forall k :: 0 <= k < n ==> a[k] == Transmission(r.srcIp, r.dstIp, r.nodeMac, neighborsAt(k))
  {
    if n == 0 then [] else Attempts(r, neighborsAt, n - 1) + [Transmission(r.srcIp, r.dstIp, r.nodeMac, neighborsAt(n - 1))]
  }

  /** Anything that can happen to the bookkeeping, in any interleaving. */
  datatype Event =
    | NoRoute(packet: Packet)
    | Rrep(addr: Addr)
    | Retry(dst: Addr, neighbors: set<Addr>)
    | Stop

  function Next(s: State, e: Event, nodeMac: Mac): State
  {
    match e
    case NoRoute(p) => Unroutable(s, p, nodeMac)
    case Rrep(a) => Resolve(s, a)
    case Retry(d, nb) => RoutineStep(s, d, nb)
    case Stop => Shutdown(s)
  }

  function Execute(s: State, events: seq<Event>, nodeMac: Mac): State
  {
    if events == [] then s else Next(Execute(s, events[..|events| - 1], nodeMac), events[|events| - 1], nodeMac)
  }

  /** `t` and `s` agree on both entries of destination `k`. */
  predicate SameAt(t: State, s: State, k: Addr)
  {
    && (k in t.rreqList <==> k in s.rreqList)
    && (k in s.rreqList ==> t.rreqList[k] == s.rreqList[k])
    && (k in t.rreqThreadList <==> k in s.rreqThreadList)
    && (k in s.rreqThreadList ==> t.rreqThreadList[k] == s.rreqThreadList[k])
  }
}
