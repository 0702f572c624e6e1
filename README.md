# Path discovery: a verified model of the route-discovery bookkeeping

The routing daemon suspends packets that have no known route. It
discovers a route by broadcasting route requests (RREQ) and releases the
suspended packets when a route reply (RREP) arrives. `PathDiscovery.py`
does this with three kinds of handlers that share two dictionaries, both
keyed by destination address:

- `rreq_list` maps a destination to the ordered list of buffered
  `[src_ip, dst_ip, raw_data]` packets;
- `rreq_thread_list` maps a destination to its retry routine.

The handlers are:

- the coordinator (`PathDiscoveryHandler`), which folds an unroutable
  packet into a pending buffer or starts a new discovery;
- one retry routine per destination (`RreqRoutine`), which sends an RREQ
  on each of its first three iterations and then deletes both entries and
  stops;
- the reply matcher (`RrepHandler`), which on a reply for a pending
  destination removes both entries, stops the routine and puts the
  buffered packets back on the application queue in arrival order.

The project has four modules:

- `DiscoveryTypes` (`discovery_types.dfy`) holds packets, the RREQ
  payload, the DSR header and one call of the transport's send primitive
  (`Broadcast`).
- `DiscoverySpec` (`discovery_spec.dfy`) is the bookkeeping as a pure state
  machine over the two maps. There is one transition function per handler
  invocation (`Unroutable`, `RoutineStep`, `Resolve`, `Shutdown`), and the
  invariant `Inv` says both maps have the same keys, every buffer is
  non-empty and holds packets for its own key, and every routine is
  recorded under its own destination and has sent one well-formed RREQ per
  iteration.
- `PathDiscovery` (`path_discovery.dfy`) holds the handlers as classes
  that update the shared maps in place. `DiscoveryTables` is the pair of
  dictionaries, shared by reference with every routine and the reply
  matcher. Every handler method is proved against the transition functions
  through `DiscoveryTables.View()`, and the loops of the three `run`
  methods carry invariants tying them to the iterated transitions.
- `DiscoveryLemmas` (`discovery_lemmas.dfy`) holds what the transitions
  guarantee: the invariant under any interleaving, the fold and
  new-discovery rules, FIFO and exactly-once release, bounded retries,
  idempotent cleanup, shutdown, and that each transition touches only
  its own destination.

Two details of the code the model keeps as written:

- The exhaustion cleanup (`PathDiscovery.py:105-110`) tests the stored
  buffer for truthiness, not for presence. `DiscoverySpec.Cleanup` keeps
  that guard, and `DiscoveryLemmas.CleanupForgets` proves it equals a
  presence check on every state that satisfies the invariant.
- The reply matcher tests membership before it takes the lock
  (`PathDiscovery.py:154`). Each handler invocation is modelled as one
  atomic step (see "Left out").

## Model

| member | source | states |
|---|---|---|
| DiscoverySpec.Attempts | PathDiscovery.py:94-129 | the broadcasts of an uncancelled routine: exactly `n`, the `k`-th carrying the routine's addresses, dsn 1, hop count 1, the node MAC in both header fields and the neighbor set read at iteration `k` |
| DiscoverySpec.Unroutable | PathDiscovery.py:41-62 | after an unroutable packet its destination is pending, and the routine map is untouched when it was pending already |
| DiscoverySpec.Cleanup | PathDiscovery.py:105-110 | the exhaustion cleanup removes `d` from the routine map; the buffer map either loses exactly `d` or, when the truthiness guard fails, stays as it was |
| DiscoverySpec.RoutineStep | PathDiscovery.py:96-115 | a routine iteration never adds a key to either map |
| DiscoverySpec.Resolve | PathDiscovery.py:154-162 | a reply for `a` leaves the buffer map without `a` and otherwise as it was; for a pending `a` the routine map loses exactly `a` |
| DiscoverySpec.Released | PathDiscovery.py:154-171 | a reply for a pending `a` releases the buffer that `Resolve` removes, so nothing is lost or duplicated; a reply for anything else releases nothing |
| DiscoverySpec.Shutdown | PathDiscovery.py:64-71 | shutdown keeps the buffers and the routine keys, and afterwards no recorded routine is running |
| DiscoverySpec.Enqueue | PathDiscovery.py:37-62 | after the coordinator's loop the pending destinations are the old ones plus exactly the destinations of the packets |
| DiscoverySpec.ResolveAll | PathDiscovery.py:148-162 | a sequence of replies never adds a pending destination |
| DiscoverySpec.ReleasedAll | PathDiscovery.py:148-171 | every packet a sequence of replies releases was buffered before the replies |
| PathDiscovery.DiscoveryTables.constructor | PathDiscovery.py:26-27 | both dictionaries start empty, no routine has been recorded, the view is the empty state and the table invariant holds |
| PathDiscovery.DiscoveryTables.Stop | PathDiscovery.py:70-71 | telling the routine recorded for `d` to stop clears its `running` flag and may change no other routine's fields; both maps keep their contents |
| PathDiscovery.DiscoveryTables.Withdraw | PathDiscovery.py:157-162 | a pending destination's entries leave both maps, its routine is told to stop, the returned data is its whole buffer, and no other entry changes |
| PathDiscovery.DiscoveryTables.Append | PathDiscovery.py:44 | the packet is appended at the end of its destination's buffer; no other entry changes |
| PathDiscovery.DiscoveryTables.Record | PathDiscovery.py:57-59 | a new destination gets the one-packet buffer `[p]` and the given routine; no other entry changes and the key sets stay equal |
| PathDiscovery.RreqRoutine.constructor | PathDiscovery.py:76-92 | a new routine is running with count 0, has sent nothing, shares the given maps and carries a type-2 header |
| PathDiscovery.RreqRoutine.Quit | PathDiscovery.py:133-135 | the routine is no longer running |
| PathDiscovery.RreqRoutine.SendRreq | PathDiscovery.py:118-129 | exactly one broadcast is sent: the routine's addresses, dsn 1, hop count 1, with the node MAC stamped into both header fields |
| PathDiscovery.RreqRoutine.Step | PathDiscovery.py:96-115 | one loop iteration is the transition `RoutineStep`: below three iterations one RREQ, the maps and their routines stay the same and the routine keeps running; at three, exactly its destination's key leaves both maps and it stops; a stopped routine changes nothing; the set of routines ever recorded is unchanged |
| PathDiscovery.RreqRoutine.Attempt | PathDiscovery.py:97-115 | an iteration below the retry bound sends one RREQ with fixed fields, counts the iteration, and changes no map entry |
| PathDiscovery.RreqRoutine.GiveUp | PathDiscovery.py:100-115 | the iteration at the bound performs the guarded deletes of `Cleanup`, which remove exactly its own destination's key from both maps, stops the routine and counts the iteration |
| PathDiscovery.RreqRoutine.Run | PathDiscovery.py:94-115 | an uncancelled run sends exactly three RREQs with fixed fields, then exactly its destination's key has left both maps, every other entry keeps its routine object, and it has stopped after four iterations |
| PathDiscovery.RrepHandler.constructor | PathDiscovery.py:140-146 | the matcher starts running, shares the given maps and has released nothing |
| PathDiscovery.RrepHandler.Quit | PathDiscovery.py:173-174 | the matcher is no longer running |
| PathDiscovery.RrepHandler.Deliver | PathDiscovery.py:166-171 | the packets are put on the application queue one by one, all of them, in order |
| PathDiscovery.RrepHandler.HandleReply | PathDiscovery.py:150-171 | a reply for a pending address removes exactly that key from both maps, stops its routine and releases exactly its buffer in arrival order; a reply for anything else changes nothing and releases nothing; only the matched routine's `running` flag may change |
| PathDiscovery.RrepHandler.Run | PathDiscovery.py:148-171 | the loop over the replies leaves the maps at `ResolveAll` and the application queue extended by `ReleasedAll`, in reply order; both maps lose exactly the replied keys, every other entry keeps its routine object and its `running` flag, every routine filed under a replied key has stopped, and no other field of any routine changes |
| PathDiscovery.PathDiscoveryHandler.constructor | PathDiscovery.py:23-35 | the coordinator starts with empty maps, no routine recorded, and a running reply matcher that shares the maps and has released nothing |
| PathDiscovery.PathDiscoveryHandler.HandleUnroutable | PathDiscovery.py:39-62 | one unroutable packet is the transition `Unroutable`: a pending destination's buffer grows and every routine object stays; a new destination gets a fresh running routine with count 0 that shares the maps and carries a type-2 header, and every other entry keeps its routine object |
| PathDiscovery.PathDiscoveryHandler.StartDiscovery | PathDiscovery.py:57-62 | a packet for a new destination gets the one-packet buffer and a fresh running routine with count 0, filed under that destination only, that shares these maps and carries a type-2 header; this is the transition `Unroutable` |
| PathDiscovery.PathDiscoveryHandler.Run | PathDiscovery.py:37-62 | the loop over the unroutable packets leaves the maps at `Enqueue` of the packets; every entry recorded before the loop keeps its routine object, and every routine the loop records is fresh, shares these maps and carries a type-2 header |
| PathDiscovery.PathDiscoveryHandler.Quit | PathDiscovery.py:64-71 | the coordinator and the matcher stop, every routine ever recorded is stopped, only `running` flags change, and both maps keep their keys and buffers |
| DiscoveryLemmas.EmptySatisfiesInv | PathDiscovery.py:26-27 | the empty maps satisfy the bookkeeping invariant |
| DiscoveryLemmas.UnroutableRules | PathDiscovery.py:41-62 | fold rule: a pending destination's buffer gets `p` at its end and the routine map is unchanged; new destination: the buffer is exactly `[p]` and the routine is fresh (count 0, running, nothing sent); the invariant is kept |
| DiscoveryLemmas.EnqueueBuffersInArrivalOrder | PathDiscovery.py:41-57 | after any sequence of unroutable packets, a destination's buffer is its old buffer followed by exactly the packets addressed to it, in arrival order, and it is pending exactly when it was pending before or some packet was addressed to it |
| DiscoveryLemmas.EnqueueKeepsInv | PathDiscovery.py:37-62 | the coordinator's loop keeps the invariant |
| DiscoveryLemmas.EnqueueStartsOneDiscoveryPerDestination | PathDiscovery.py:41-62 | however many packets arrive for a destination, an existing routine stays as it was, and a new destination gets exactly one fresh routine for the source of its first packet |
| DiscoveryLemmas.FoldTwoPackets | PathDiscovery.py:41-57 | two packets for one new destination start one routine and leave the buffer `[p1, p2]` |
| DiscoveryLemmas.RoutineStepKeepsInv | PathDiscovery.py:96-115 | a routine iteration keeps the invariant, including that every RREQ sent carries fixed fields |
| DiscoveryLemmas.BoundedRetries | PathDiscovery.py:94-115 | a fresh, uncancelled routine has sent exactly `n` RREQs after `n` iterations up to three; iteration four removes both entries, and later iterations change nothing |
| DiscoveryLemmas.RetriesBeforeGivingUp | PathDiscovery.py:95-98 | each of the first three iterations adds one RREQ and changes nothing else |
| DiscoveryLemmas.CleanupForgets | PathDiscovery.py:105-110 | on a state that satisfies the invariant, the truthiness guard acts as a presence check: cleanup removes both entries, and the invariant holds afterwards |
| DiscoveryLemmas.CleanupIdempotent | PathDiscovery.py:105-110 | running cleanup twice is the same as once, and cleanup for an absent destination changes nothing |
| DiscoveryLemmas.ResolveKeepsInv | PathDiscovery.py:154-162 | a reply, matched or stale, keeps the invariant |
| DiscoveryLemmas.StaleReply | PathDiscovery.py:154 | a reply for an address that is not pending changes neither map and releases nothing |
| DiscoveryLemmas.MatchedReply | PathDiscovery.py:154-171 | a matched reply removes both entries and releases the whole non-empty buffer; the cancelled routine can no longer touch the maps, and a second reply is stale |
| DiscoveryLemmas.ResolveAllDropsReplied | PathDiscovery.py:148-162 | the buffers left after a sequence of replies are exactly the old ones minus those of the replied addresses |
| DiscoveryLemmas.ResolveAllForgetsReplied | PathDiscovery.py:148-162 | a sequence of replies removes exactly the replied destinations from both maps |
| DiscoveryLemmas.ExactlyOnceRelease | PathDiscovery.py:148-171 | over any sequence of replies a destination's packets are released once, all of them and in buffered order, if some reply named it, and never otherwise |
| DiscoveryLemmas.ReplyAfterExhaustionIsStale | PathDiscovery.py:105-162 | after the exhausting iteration, a late reply for that destination is stale and releases nothing |
| DiscoveryLemmas.ShutdownKeepsInv | PathDiscovery.py:64-71 | shutdown keeps the invariant |
| DiscoveryLemmas.ShutdownStopsRoutines | PathDiscovery.py:64-71 | shutdown keeps both maps' keys and buffers, marks every recorded routine as stopped, and no routine acts afterwards |
| DiscoveryLemmas.StopAllButStep | PathDiscovery.py:70-71 | stopping one more routine in the shutdown loop is one map update and leaves the others as they were |
| DiscoveryLemmas.OtherDestinationsUntouched | PathDiscovery.py:41-162 | an unroutable packet, a reply and a routine iteration each leave the entries of every other destination as they were |
| DiscoveryLemmas.InvariantHolds | PathDiscovery.py:37-174 | the invariant holds after any interleaving of unroutable packets, replies, routine iterations and shutdown |
| DiscoveryLemmas.SingleDiscoveryScenario | PathDiscovery.py:41-171 | one packet `x`: if a reply comes after two RREQs it releases `[x]` and the third RREQ is never sent; with no reply, the fourth iteration leaves both maps empty |

## Left out

- Threads, the module lock and scheduling are not modelled. Each handler invocation, and each routine iteration, is one atomic step, and interleavings are sequences of such steps (`DiscoverySpec.Execute`).
- The membership tests at `PathDiscovery.py:41` and `:154` run outside the lock. Their race with a concurrent delete, including the possible `KeyError`, is not modelled.
- `time.sleep`, the retry interval, the `_Thread__stop` calls and all logging are left out. None of them change the maps.
- The blocking `wait_queue.get()` and `rrep_queue.get()` become sequence parameters of the `Run` methods. `app_queue` is the field `RrepHandler.appQueue`.
- `Messages.RouteRequest`, `Messages.DsrHeader`, `arq_handler.arq_send` and `table.get_neighbors()` are not part of this model. Each send is appended to the ghost record `RreqRoutine.sent`, the neighbor sets are inputs, and the node MAC is a parameter.
- A fault raised by the transport while sending is not modelled, because the send primitive is not part of this model.
- The addresses of the initial `DsrHeader(2)` are modelled as empty strings. Only its type is fixed by the code shown, and both addresses are overwritten before every send.
- The routine's local `count` is a field, so that one loop iteration (`RreqRoutine.Step`) can be a method.
- PathDiscovery.RreqRoutine.Run: requires the invariant and the routine's own entry at its start, rather than proving them across concurrently running handlers.
- PathDiscovery.RrepHandler.Run: tests `running` once before the loop. In the sequential model nothing can clear it while the loop runs.
- PathDiscovery.PathDiscoveryHandler.Run: tests `running` before every packet as the source does, but nothing clears it while the loop runs.
- PathDiscovery.PathDiscoveryHandler.Quit: visits the recorded destinations in an unspecified order. The result does not depend on the order.
- `routing_logging.py` and `conf.py` are not part of this model. They hold logging plumbing and static configuration.
