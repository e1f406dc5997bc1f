# A verified model of gomelo's core

gomelo is a Go framework for distributed game servers. This project models the parts of it that carry
state, arithmetic or interleavings, and proves what they keep over every input, every run or every
interleaving. `dafny verify dfyconfig.toml` checks all of it.

| module | models |
|---|---|
| `Framing` | length-prefixed frames, the connector's read loop and the master's message loop |
| `ReadPool` | the read buffers that the connector's sessions share |
| `HashRing`, `Balancer`, `Decimals` | the consistent-hash ring, the round-robin balancer, and the addresses and keys they write |
| `SingleClient`, `CallHistory`, `PacketReader`, `PoolClient` | the multiplexing RPC client, what its callers are told, how it reads packets, and the lending RPC pool |
| `GenericPool`, `RpcClientPool` | the two connection pools |
| `RouteDict`, `Codec` | 16-bit route ids and the binary message codec |
| `Pipeline` | the cached middleware chain and the handler cursor `Context.Next` |
| `TokenBucket`, `CircuitBreaker` | the rate limiters and the breaker |
| `TaskHeap`, `Scheduler` | the priority heap, the workers and Stop |
| `Master` | the membership tables |
| `Bytes`, `Prelude` | bytes and big-endian numbers; what several modules share |

How things are modelled:

- Objects that change in place are classes. Each method's contract gives the new state as a specification
  function of the old one, and the lemmas are about those functions.
- Code whose point is concurrency (`singleClient`, `poolClient`, `RPCClientPool`, the scheduler's workers, the
  connector's sessions)
  is a step machine: one step per lock region, any number of callers, any order. `Run(events)` is `None`
  when a step was not possible, so a lemma about `Run(events).Some?` speaks of every interleaving.
- `time.Now()` is a parameter, `float64` is `real`, hash functions are arbitrary functions (collisions
  included), JSON and protobuf bodies are opaque values, and the results of dials, writes and reads are
  chosen by the environment.

## What the proofs found

Where a property one would expect is false of the code, the code is kept, and the lemmas named here give failing
inputs or runs and say exactly when the property does hold.

- The longest frames. `DecodeFrame` adds 4 to the length as a uint32. For the four largest lengths a header can
  hold the sum wraps and the slice panics, so a frame decodes to its payload if and only if the payload is shorter
  than 2^32 - 4 bytes (`FrameRoundTrip`, `FrameDecoderPanics`).
- Ring points shared by two servers. A live server is chosen for some key if and only if it was the last to write
  one of its points (`ChosenExactlyIfOnTheRing`, `ChosenExactlyIfLastWriter`); a server added later at the same
  points hides it completely (`CoveredServerIsHidden`, `SharedPointHidesALiveServer`). With the default hash this
  is not far-fetched: the hosts `Aa` and `BB` share all their points on every port (`DefaultHashCollides`).
- Removal from a ring. It moves no other server's keys if and only if each of the removed server's points that
  another server has taken over is followed clockwise by a surviving point of that same server
  (`RemoveMovesOnlyItsOwnKeys`). A removal panics exactly without the capacity `CanRemove` asks for
  (`PanicsExactlyAtAnUnguardedRemoval`, `SharedPointLosesALiveServer`). Without shared points, and removing live
  servers only, no run panics and every live server owns all of its points (`OrderlyRunNeverPanics`,
  `OrderlyRunOwnsEveryPoint`).
- A failing connection. `notifyAllPending` empties the table before `closed` is set. A call that registers
  in between is answered by nobody and returns only by its own timeout or cancellation, since a later `Close`
  returns at once (`TearDownCanStrandAWaiter`); these are the only calls left uncompleted
  (`TearDownStrandsExactlyTheLateCalls`). A `Close` that does the closing has no such gap
  (`CloseReleasesEveryWaiter`).
- A caller of `InvokeCtx` that passes a nil reply is told of no error even when the server answered with one
  (`NilReplyHidesARemoteError`); one that passes a reply always is (`CallerIsToldExactly`).
- The 30 second deadline of `GetClient` is not enforced, since the wait has no timer. However late it is, a sleeping
  waiter can leave if and only if a Close has come, or a Return that picked it and kept its connection
  (`ExpiredWaiterLeavesExactlyIfReached`, `SecondCallerSleeps`). No wake-up is lost, though
  (`EveryRunLosesNoWakeup`).
- A read that fails in the middle of a packet. The client drops what it has read of the packet and takes the next
  bytes for a header, so it can hand on a packet that nobody sent (`FailureDeliversAPacketNeverSent`). Exactly the
  packets sent arrive if and only if every failure falls between two packets, never three in a row before a further
  packet, and no packet is too large (`ArrivesExactlyIfCalm`).
- A session that the connector cuts off puts its read buffer back twice, after which one session can append what was
  sent to another (`CutOffMixesSessions`). While the pool forgets nothing, every buffer has one holder if and only if
  no session was ever cut off (`OneHolderExactlyWithoutCutOff`). When all peers send frames of at most 61,441 bytes
  that never happens, and every session delivers (`EverySessionDelivers`).
- `RPCClientPool` exceeds `maxConns` by up to the number of callers less one, and really reaches that
  (`EveryRunIsBounded`, `BoundIsAttained`).
- A zero length word stops the master's loop for the rest of the connection (`MasterStopsAtZeroLength`), where the
  connector takes it as an empty frame; it is also the only way to reach the master's 1 MiB cut-off
  (`MasterCutsExactlyBehindAZeroLength`). A stream is delivered if and only if every payload has a length the master
  accepts (`MasterDeliversExactlyAcceptedStreams`).
- Registering an id that is already registered, and nothing else, leaves a stale or double entry in the type lists
  (`RegisterKeepsExactIffAbsent`, `ReRegistrationLeavesAStaleEntry`).
- docs/API.md numbers the message types from 1 and shows `RegisterRoute` with an id argument. The code
  writes whatever type it is given, modulo 256, and hands the ids out itself; the model follows the code.
  The byte layout agrees with docs/API.md:895-901.

## Model

| member | source | states |
|---|---|---|
| `Framing.FrameRoundTrip` | protocol/protocol.go:71-86 | A frame decodes to its payload, whatever follows, if and only if the payload is shorter than 2^32 - 4 bytes |
| `Framing.FrameDecoderPanics` | protocol/protocol.go:77-86 | Decoding a frame panics if and only if the length in its header is one of the four largest, where the uint32 sum 4+size wraps |
| `Framing.DecodeFrameExactly` | protocol/protocol.go:77-86 | On any buffer: a payload, exactly the bytes the header asks for, if and only if they are all there and the end does not wrap; too short, incomplete or a panic each exactly when it should be |
| `Framing.DecodeSplit` | connector/tcp_server.go:302-329 | For arbitrary bytes in either dialect, decoding a prefix and then leftover ++ rest gives the messages and leftover of decoding everything at once |
| `Framing.FeedIsDecode` | connector/tcp_server.go:259-329 | However the bytes are cut into reads, the frames and leftover are those of the uncut stream |
| `Framing.FramesAreShort` | connector/tcp_server.go:302-329 | Every dispatched payload has a length the decoder accepts, at most 65,536 bytes and for the master not zero, and fits the buffer with its header |
| `Framing.SentPayloadArrives` | connector/tcp_server.go:441-464 | One sent payload is decoded as itself with nothing left over if and only if it has at most 65,536 bytes (and, for the master, is not empty) |
| `Framing.StreamDecodesExactly` | connector/tcp_server.go:302-329 | In either dialect a stream of frames decodes to its payloads with nothing left over if and only if every payload has an accepted length |
| `Framing.Resynchronises` | connector/tcp_server.go:302-329 | Behind any number of length words over 65,536 everything decodes as if they had not been there |
| `Framing.MasterStopsAtZeroLength` | master/master.go:340-373 | With a zero length word at the front of the buffer no series of reads whatever yields another frame; everything read stays in the buffer |
| `Framing.LeftoverIsShort` | connector/tcp_server.go:302-329 | For arbitrary bytes less than one largest frame is left over, except in the master behind a zero length word |
| `Framing.SafeStreamIsDelivered` | connector/tcp_server.go:259-300 | For any stream of frames of at most 61,441 bytes under every cut into reads of at most 4,096 bytes the size check never fires, every prefix yields a prefix of the payloads, and the whole stream yields exactly the payloads with an empty buffer |
| `Framing.MessagesArrive` | connector/tcp_server.go:302-329 | From end to end: messages written, framed and sent in frames of at most 61,441 bytes are offered to the session as they were, in order, under every cut into reads |
| `Framing.MasterStreamIsDelivered` | master/master.go:308-374 | Any stream of non-empty frames of at most 65,536 payload bytes, under every cut into reads of at most 4,096 bytes, never reaches the 1 MiB cut-off and is delivered exactly and in order |
| `Framing.MasterDeliversExactlyAcceptedStreams` | master/master.go:308-374 | A stream read to its end, under every cut into reads, is delivered exactly and in order if and only if every payload has between 1 and 65,536 bytes |
| `Framing.MasterCutsExactlyBehindAZeroLength` | master/master.go:308-374 | For arbitrary bytes and reads the master gives a connection up if and only if more than 1 MiB stays undecoded, and then a zero length word stands in front of it |
| `Framing.SafeFrameIsTight` | connector/tcp_server.go:94-99 | No stream of frames bounded by a limit is ever cut off, under any reads, if and only if the limit is at most 61,441 |
| `Framing.Connection.constructor` | connector/tcp_server.go:259-261 | A new connection has an empty buffer and has offered nothing |
| `Framing.Connection.DispatchMessages` | connector/tcp_server.go:302-329 | The in-place loop ends with the leftover of the decoding function and offers the parseable messages among its frames, in order |
| `Framing.ParsedInOrder` | connector/tcp_server.go:302-329 | The messages offered are those of the frames that parse, each at its frame's place, and nothing else |
| `Framing.Connection.Receive` | connector/tcp_server.go:259-300 | One read: the session is closed exactly when the grown buffer exceeds 65,536 bytes, before anything of it is dispatched |
| `Framing.Connection.ReadLoop` | connector/tcp_server.go:259-300 | Over a whole series of reads the loop closes, buffers and offers what the session specification says |
| `Framing.ProcessMessages` | master/master.go:333-374 | The master's loop refuses exactly buffers over 1 MiB and otherwise returns the commands and leftover of the decoding function |
| `Framing.HandleConn` | master/master.go:308-331 | Over a whole series of reads the loop stops, buffers and finds the commands that the session specification says |
| `ReadPool.EveryRunCountsBuffers` | connector/tcp_server.go:259-300 | Over every interleaving of any number of sessions a buffer is in the pool or in a session's hands once, plus once for each time it was put back twice, less the times the pool forgot it |
| `ReadPool.OneHolderExactlyWithoutCutOff` | connector/tcp_server.go:278-296 | In every run no buffer is in two places if and only if none was put back twice more often than it was forgotten; with a pool that forgets nothing, if and only if no session was ever cut off |
| `ReadPool.SessionsArePrivateWithoutCutOff` | connector/tcp_server.go:259-300 | In every run without a cut-off each session has buffered and dispatched what the read loop makes of its own reads alone, though all sessions write into the same buffers |
| `ReadPool.EverySessionDelivers` | connector/tcp_server.go:259-329 | If every peer sends frames of at most 61,441 bytes then in every run no session is cut off, each has dispatched a prefix of its own peer's payloads, and all of them once they were read |
| `ReadPool.CutOffDoublesTheBuffer` | connector/tcp_server.go:286-296 | Whatever reads cut a session off, a run with them ends with its buffer in the pool twice |
| `ReadPool.CutOffMixesSessions` | connector/tcp_server.go:278-296 | A run in which, after one cut-off, a session appends the byte that was sent to another session |
| `HashRing.ScanIsClockwise` | selector/selector.go:243-256 | The linear scan finds the least point at or after the hash, or the least of all when there is none |
| `HashRing.AddValid` | selector/selector.go:182-198 | Adding keeps: keys sorted, their values the ring's domain, every ring value a live node at one of its own points; the domain grows by the server's points |
| `HashRing.RemoveValid` | selector/selector.go:200-221 | Removing keeps the same invariant and takes exactly the server's points out of the domain |
| `HashRing.RunIsValid` | selector/selector.go:182-221 | The invariant holds after every run of additions and removals from an empty ring |
| `HashRing.EveryRunSelectsALiveServer` | selector/selector.go:182-256 | In every reachable non-empty ring every hash is sent to a live server, the one whose own point is met first clockwise |
| `HashRing.AddMovesOnlyToTheNewServer` | selector/selector.go:182-198 | For every hash function, an added server leaves each key where it was or takes it over |
| `HashRing.RemoveMovesOnlyItsOwnKeys` | selector/selector.go:200-221 | Removal leaves all positions of other servers in place if and only if every taken-over point falls back to a surviving point of the same owner |
| `HashRing.UnsharedRemovalMovesOnlyItsOwnKeys` | selector/selector.go:200-221 | Removing a server that shares no point with another live one changes the choice only for keys it owned |
| `HashRing.AddThenRemove` | selector/selector.go:182-221 | Adding and then removing restores the very same ring, keys and nodes if and only if the address was new and its points unused |
| `HashRing.ChosenExactlyIfOnTheRing` | selector/selector.go:223-256 | A server is chosen for some key if and only if the ring names it at some point |
| `HashRing.ChosenExactlyIfLastWriter` | selector/selector.go:182-256 | Over every run a server is chosen for some key if and only if, of the calls that touch some point of it, the latest was its own addition |
| `HashRing.CoveredServerIsHidden` | selector/selector.go:182-198 | A server added at all the points of another leaves it live and chosen for no key |
| `HashRing.DefaultHashCollides` | selector/selector.go:174-198 | Under the default hash, with its int64 wrap-around, two different hosts have the same points for every port and every number of replicas |
| `HashRing.SortCounts` | selector/selector.go:182-198 | Sorting the key array keeps every key as often as it was there |
| `HashRing.AddressIsHostAndPort` | selector/selector.go:186-187 | Two servers have the same address if and only if they have the same host and the same port |
| `HashRing.ReplicaKeysAreDistinct` | selector/selector.go:189-194 | The keys hashed for the replicas of all servers are pairwise different |
| `HashRing.LiveExactlyIfLatest` | selector/selector.go:182-221 | In every run of AddServer and RemoveServer the live server at a host and port is the one last added there and not removed since |
| `HashRing.AddedServersLiveSideBySide` | selector/selector.go:182-198 | Of two servers added one after the other both live, unless host and port agree, when the second replaces the first |
| `HashRing.DefaultHashIsThePolynomial` | selector/selector.go:174-181 | The default hash is the polynomial in 31 over the characters, reduced to an int64 |
| `Decimals.DecimalStandsForItsNumber` | selector/selector.go:186-194 | What is written for a port or replica number reads back as that number |
| `HashRing.OrderlyRunNeverPanics` | selector/selector.go:200-221 | When addresses share no points and only live servers are removed, the capacity computed by RemoveServer is never negative in any run |
| `HashRing.PanicsExactlyAtAnUnguardedRemoval` | selector/selector.go:200-221 | A run panics if and only if it makes a removal with fewer keys in the array than the server has replicas |
| `HashRing.OrderlyRunOwnsEveryPoint` | selector/selector.go:182-221 | In every run without shared points every live server owns each of its points |
| `HashRing.OrderlyRunChoosesEveryLiveServer` | selector/selector.go:182-256 | In every such run every live server with at least one replica is chosen for some key |
| `HashRing.SharedPointLosesALiveServer` | selector/selector.go:200-221 | A run with one shared point after which a live server is chosen for no key and cannot be removed without a panic |
| `HashRing.SharedPointHidesALiveServer` | selector/selector.go:182-198 | Two additions with one shared point after which the first server is live and chosen for no key |
| `HashRing.ConsistentHashSelector.constructor` | selector/selector.go:161-181 | A new selector is the empty ring, with the default hash in place of a nil one |
| `HashRing.ConsistentHashSelector.AddServer` | selector/selector.go:182-198 | The loop over the replicas and the sort compute the specified ring |
| `HashRing.ConsistentHashSelector.RemoveServer` | selector/selector.go:200-221 | The two loops delete exactly the server's points from ring and key array, given the capacity that Go needs |
| `HashRing.ConsistentHashSelector.FindClosest` | selector/selector.go:243-256 | Binary search over the sorted keys finds what the linear clockwise scan finds |
| `HashRing.ConsistentHashSelector.Select` | selector/selector.go:223-241 | A key is answered by the live server that owns its hash; nothing is returned only without a key or with an empty ring |
| `Balancer.RoundRobinIsFair` | selector/selector.go:113-130 | k consecutive picks among n servers hit each one floor(k/n) times, plus once exactly for those that come up in the unfinished round |
| `Balancer.SelectsGoRound` | selector/selector.go:113-130 | k Selects return the servers at the cursor and the following positions modulo n and leave the cursor k further, even from a cursor beyond a shrunken list |
| `Balancer.FreshBalancerStartsAtTheFirst` | selector/selector.go:107-130 | A new balancer starts with the first server and goes on in the list's order |
| `Balancer.OtherTypesKeepTheirTurn` | selector/selector.go:113-130 | Selecting any number of servers of one type leaves the selections of another type as they would have been |
| `Balancer.LoadBalancer.Select` | selector/selector.go:113-130 | One call returns the server at the type's cursor and moves that cursor on; an empty list changes nothing |
| `Balancer.LoadBalancer.SelectMulti` | selector/selector.go:132-150 | SelectMulti(n) returns the same servers and leaves the same cursors as n Selects |
| `SingleClient.EveryRunKeepsInv` | rpc/client.go:525-596 | Over every interleaving of invokes, sends, responses, timeouts, cancellations, read errors, drains and Close: table entries belong to unreturned calls under their own seq, and every waiting call is in the table, completed or held by a drain |
| `SingleClient.FuturesCompleteOnceForTheRightCall` | rpc/client.go:712-740 | In every run each future is completed at most once, seqs are distinct, and a response reaches only the call that sent its seq |
| `SingleClient.ResultsAreFinal` | rpc/client.go:712-740 | A future completed at some point of a run has the same result, and no second completion, at every later point |
| `SingleClient.TableIsEmptyAtQuiescence` | rpc/client.go:525-596 | When all calls have returned the pending table is empty |
| `SingleClient.NoWaiterIsForgotten` | rpc/client.go:665-678 | A waiting call is in the table under its own seq, or can observe its result now, or can be completed by a drain now |
| `SingleClient.CloseReleasesEveryWaiter` | rpc/client.go:742-768 | When the Close that did the closing returns, every call that still waits has been completed |
| `SingleClient.EveryRunKeepsLate` | rpc/client.go:628-678 | Once a failing receive loop has drained the table, only calls that registered after the drain can be in it |
| `SingleClient.TearDownStrandsExactlyTheLateCalls` | rpc/client.go:628-678 | After a teardown without Close a waiting call is left uncompleted if and only if it registered between the drain and the teardown |
| `SingleClient.TearDownCanStrandAWaiter` | rpc/client.go:628-678 | A concrete run that leaves such a call waiting, with Close doing nothing any more |
| `SingleClient.NilReplyHidesARemoteError` | rpc/client.go:712-740 | For every error message a run in which the server answers with it and the call, made with a nil reply, returns no error |
| `CallHistory.ResultsComeFromEvents` | rpc/client.go:665-768 | In every run a future was failed with a connection error if and only if the receive loop's drain completed it, with "client closed" if and only if Close did, and answered exactly by the response that arrived under its seq while it was in the table |
| `CallHistory.CallerIsToldExactly` | rpc/client.go:577-596 | A call that returns by its future returns a connection error, "client closed", or of its response: the remote error if there is one, else a bad reply exactly if it could not be stored, else no error; and no error at all without a reply |
| `CallHistory.CallsEndExactly` | rpc/client.go:525-596 | In every run a call ends by its future, a timeout, a cancellation, the client's end, a marshalling error, a closed client or a failed write, each if and only if that happened to it |
| `CallHistory.EveryCallCanGoOn` | rpc/client.go:525-596 | In every reachable state every call has a step of its own until it returns; a waiting one can time out or be cancelled at any time, and end with the client exactly after its cancellation |
| `CallHistory.ReceiverCanGoOn` | rpc/client.go:628-678 | The receive loop takes whatever is read while it reads, works its drain off call by call, and takes nothing once it has ended |
| `CallHistory.CloseCanGoOn` | rpc/client.go:742-768 | Close goes on by itself but for waiting for the receive loop's end, and a second Close changes nothing |
| `CallHistory.FlagsComeFromEvents` | rpc/client.go:628-768 | The client is cancelled by Close only, and closed if and only if there was a Close or the receive loop's teardown |
| `CallHistory.NumberIsPlaceInOrder` | rpc/client.go:525-604 | The seq of a call is its place among the calls and notifications, at every later point of the run |
| `CallHistory.GivesUpAtTheThirdError` | rpc/client.go:628-663 | The receive loop counts the errors since the last packet, gives up at the third, and ends otherwise only after a Close |
| `PacketReader.EveryByteIsAccountedFor` | rpc/client.go:680-710 | However reads fail, every byte is in a packet handed on, in the one being read, or lost, and nothing handed on is taken back |
| `PacketReader.ArrivesExactlyIfCalm` | rpc/client.go:628-710 | For every way failures can fall between the bytes of a stream of packets, exactly those packets are handed on if and only if each comes whole, is not too large, and has fewer than three failures in front of it |
| `PacketReader.FailureDeliversAPacketNeverSent` | rpc/client.go:680-710 | For every q an input with one failure behind a header from which the packet q is handed on although only a packet containing it was sent |
| `PacketReader.ReadFull` | rpc/client.go:699-710 | Either all bytes asked for, or what was read before the failure or the end |
| `PacketReader.ReadPacket` | rpc/client.go:680-697 | One packet, error or unfinished packet, and what is left of the input, as the byte-by-byte specification says |
| `PacketReader.ReceiveLoop` | rpc/client.go:628-663 | The loop hands on the specified packets and gives up at the third error without a packet between |
| `PoolClient.EveryRunConserves` | rpc/client.go:104-185 | In every run, while open, totalConns = idle + lent; with maxConns > 0 it never exceeds max(minConns, maxConns), woken waiters included; nobody waits while a dial would be allowed |
| `PoolClient.NoConnectionHasTwoHolders` | rpc/client.go:122-213 | Each connection ever dialled is in exactly one place: idle once, held by one caller, or shut |
| `PoolClient.GetDoesExactly` | rpc/client.go:122-166 | In every run GetClient of a caller not asleep is refused if and only if the pool was closed; with connections idle gets the one returned last and dials nothing; else sleeps exactly at the limit, and below it gets what its dial brings |
| `PoolClient.WakeDoesExactly` | rpc/client.go:139-166 | In every run a signalled waiter is turned away when closed, gets the connection returned last if one is idle, however late it is, and otherwise leaves exactly if its time is over |
| `PoolClient.ReturnDoesExactly` | rpc/client.go:168-185 | A connection is kept, last in line and still counted, if and only if the pool is open and fewer than maxConns are idle; else it is shut and uncounted |
| `PoolClient.CloseDoesExactly` | rpc/client.go:187-213 | The first Close shuts every idle connection and signals every waiter, and leaves the lent ones out; a second does nothing |
| `PoolClient.ClosedPoolOnlyTakesBack` | rpc/client.go:122-213 | Once closed, over every run: nothing is dialled or lent, nobody starts to wait, and every connection taken back is uncounted |
| `PoolClient.ClosedExactlyByClose` | rpc/client.go:187-213 | The pool is closed if and only if there was a Close |
| `PoolClient.WarmUpKeepsEverySuccess` | rpc/client.go:104-116 | The warm-up leaves exactly as many connections as dials succeeded |
| `PoolClient.EveryRunKeepsReturnOrder` | rpc/client.go:168-185 | In every run the idle connections lie in the order of their return |
| `PoolClient.EveryRunLosesNoWakeup` | rpc/client.go:139-183 | In every run each idle connection has its own signalled waiter or all waiters are signalled; so with a connection idle and somebody waiting, a signalled waiter can take it now |
| `PoolClient.SignalledExactly` | rpc/client.go:139-183 | In every run a caller is signalled if and only if a Close or a Return that keeps its connection signalled it while it slept and it has not woken since |
| `PoolClient.ExpiredWaiterLeavesExactlyIfReached` | rpc/client.go:139-150 | After any events without its own wake-up a sleeping waiter whose deadline has passed can leave if and only if one of them was a Close, or a Return that picked it and kept its connection, in a pool still open |
| `PoolClient.UnsignalledWaiterStays` | rpc/client.go:139-150 | A waiter that none of the events reaches is still asleep after them, its deadline notwithstanding |
| `PoolClient.NobodyLeavesWithoutReturnOrClose` | rpc/client.go:139-150 | From any state, without Return and Close no sleeping waiter leaves |
| `PoolClient.SecondCallerSleeps` | rpc/client.go:122-150 | A run that reaches a sleeping waiter whose deadline cannot wake it |
| `RpcClientPool.New` | pool/pool.go:250-279 | The limits asked for, ten and one in place of non-positive ones, and an empty open pool |
| `RpcClientPool.EveryRunIsBounded` | pool/pool.go:355-438 | With at most N concurrent callers and no Warmup every reachable state has totalConns + dials in progress <= maxConns - 1 + N and totalConns = idle + lent |
| `RpcClientPool.BoundIsAttained` | pool/pool.go:355-397 | For every N and maxConns some run reaches totalConns = maxConns - 1 + N |
| `RpcClientPool.GetDoesExactly` | pool/pool.go:355-380 | In every run Get is refused if closed; with connections idle hands out the one put back longest ago, all counts unchanged; and otherwise starts a dial if and only if fewer than maxConns are counted |
| `RpcClientPool.DialDoesExactly` | pool/pool.go:378-397 | A dial that comes back is counted and its new connection handed out if and only if it succeeded and the pool is still open |
| `RpcClientPool.PutDoesExactly` | pool/pool.go:399-438 | A connection put back is kept, last in line and still counted, if and only if the pool is open and fewer than maxConns + 10 are idle |
| `RpcClientPool.EveryRunKeepsPutOrder` | pool/pool.go:399-438 | In every run the idle connections lie in the order in which they were put back |
| `RpcClientPool.ClosedPoolOnlyTakesBack` | pool/pool.go:440-452 | Once closed, over every run: nothing is dialled or lent any more |
| `RpcClientPool.CleanupIdle` | pool/pool.go:316-339 | The clean-up loop ends with the min(idle, minConns) most recently returned connections, uncounts the others, and leaves lent ones and dials alone |
| `GenericPool.Pool.constructor` | pool/pool.go:45-83 | A new pool holds the connections its factory produced, in order, with the default limits for non-positive ones |
| `GenericPool.Pool.Warmup` | pool/pool.go:125-137 | Warmup appends what the factory produced and keeps the conservation laws, with the warmed-up connections counted as active; on a closed pool it does nothing if the factory produces nothing |
| `GenericPool.Pool.Get` | pool/pool.go:165-191 | Exactly when a connection is handed out, which one it is, and which of the three errors it is otherwise; total = idle + outstanding and active = outstanding + warmed-up are kept, and with minConns <= maxConns and no Warmup total <= maxConns |
| `GenericPool.Pool.Put` | pool/pool.go:193-215 | A returned connection goes back exactly when the pool is open and the channel has room, always so with sane limits; else it is closed and uncounted |
| `GenericPool.Pool.Cleanup` | pool/pool.go:139-163 | The loop terminates, closes the longest idle connections, and leaves min(idle, minConns) |
| `GenericPool.Pool.Close` | pool/pool.go:106-123 | Every idle connection is closed, those handed out stay out |
| `GenericPool.Pool.Stats` | pool/pool.go:217-222 | total - idle is the number of connections handed out, and so is active less what was put in by warm-ups |
| `RouteDict.RegisterAllIsSound` | codec/codec.go:63-74 | After any registrations every route given is known, earlier ids are unchanged, and until they run out the ids are 1, 2, ..., 65535, 0 and stand for their routes |
| `RouteDict.ResolvesUntilIdsRunOut` | route/route.go:21-34 | Every registered route is what its id stands for if and only if there are at most 65,536 routes |
| `RouteDict.IdsAreStable` | route/route.go:36-55 | An id handed out once still decompresses to its route after any further registrations up to 65,536 routes |
| `RouteDict.LastHandlerIsFoundById` | route/route.go:106-133 | The id of a route finds the handler registered last for that route, over any sequence of registrations |
| `RouteDict.HandlerExactlyForIdsInUse` | route/route.go:122-133 | Over any registrations of fewer than 65,536 routes an id has a handler if and only if it is between 1 and the number of routes |
| `RouteDict.Compressor.Compress` | route/route.go:21-49 | The counter and both maps become those of the specification; the result is the route's id |
| `RouteDict.Compressor.GetRoute` | route/route.go:51-69 | An id handed out for a route gives that route back, up to 65,536 routes |
| `RouteDict.RouterTable.RegisterID` | route/route.go:106-113 | The compressor and the handler table together become those of the specification; the id returned is the route's own |
| `RouteDict.RouterTable.GetHandlerByID` | route/route.go:122-133 | The handler of the route that the id stands for, or none |
| `Codec.FirstNul` | codec/codec.go:165-173 | The scan stops at the first NUL at or after its start, or at the end |
| `Codec.RoundTrip` | codec/codec.go:88-196 | Decoding what was encoded, even with another dictionary's ids, returns type, route, seq and body if and only if the type is in 0..255 and the route is NUL-free when unregistered, or is what its id stands for when registered |
| `Codec.RoundTripAcrossRegistrations` | codec/codec.go:63-196 | Over a codec's life up to 65,536 routes: encode, register any further routes, decode; the message comes back if and only if its type is in 0..255 and its route was registered or is NUL-free |
| `Codec.ReEncode` | codec/codec.go:88-196 | Encoding a decoded message gives back the same bytes if and only if they are canonical: a known id of its route, or a terminated unregistered route |
| `Codec.WireFormat` | codec/codec.go:88-137 | The bytes written: type, flag, two-byte id or terminated route, eight-byte seq, body, most significant byte first |
| `Codec.EncodeFailsExactly` | codec/codec.go:88-137 | Encoding fails if and only if the body is no protobuf message or cannot be marshalled, each with its error |
| `Codec.DecodeReadsExactly` | codec/codec.go:139-196 | What is read from any bytes, also with an unknown id, an unterminated route or an unknown flag |
| `Codec.DecodeFailsExactly` | codec/codec.go:139-196 | Decoding fails if and only if there are fewer than ten bytes, or fewer than eight behind the route, each with its error |
| `Codec.ProtobufCodec.RegisterRoute` | codec/codec.go:63-74 | The new dictionary is the specified one and the result is the route's id in it |
| `Codec.ProtobufCodec.EncodeMessage` | codec/codec.go:88-137 | The step-by-step writer produces the specified bytes, or the error for a body that cannot be encoded |
| `Codec.ProtobufCodec.DecodeMessage` | codec/codec.go:139-196 | The offset-driven parser with its scanning loop computes the specified result, errors included |
| `Pipeline.HandlersRunInOrder` | lib/router.go:88-97 | The nested handler closure means the handlers one after another in On order, for every meaning of handlers |
| `Pipeline.MiddlewaresNest` | lib/router.go:99-103 | The wrapped closure means the middlewares around the body, the one used first outermost |
| `Pipeline.FreshChainMeansUseThenOn` | lib/router.go:61-108 | A fresh build is a single function meaning all middlewares in Use order around all handlers in On order; without handlers there is none, except that the empty route gets the middlewares around a nil function |
| `Pipeline.EveryHandlerHasItsPlace` | lib/router.go:54-59 | Of the handlers given to On for a route none is missing, added or out of place: each stands at the rank of its call |
| `Pipeline.Pipeline.Use` | lib/router.go:47-52 | The middleware is appended and no stale cache entry becomes current |
| `Pipeline.Pipeline.On` | lib/router.go:54-59 | The call joins the history of On calls, the handler table keeps agreeing with that history, and every current cache entry stays right |
| `Pipeline.Pipeline.GetHandlers` | lib/router.go:61-108 | Caching is invisible: every call returns what a fresh build from all middlewares used and all handlers given to On for the route would |
| `Pipeline.Context.Next` | lib/app.go:355-361 | Each remaining handler runs exactly once, in order, however often handlers call Next themselves |
| `Pipeline.Context.CallHandler` | lib/app.go:355-361 | A handler that calls Next, however often, finishes the whole chain; one that does not runs alone and leaves the cursor |
| `TokenBucket.LevelIsTheTightestWindow` | lib/ratelimit.go:33-41 | The running number is at least m if and only if m more would fit into every window since an earlier call |
| `TokenBucket.RunningNumberRefinesWindows` | lib/ratelimit.go:33-69 | The refilled number covers n if and only if for every earlier call time grants since then plus n stay within burst + rate x elapsed |
| `TokenBucket.NoWindowIsOverspent` | lib/ratelimit.go:272-294 | In every history the limiter can produce no window from an earlier call until now spends more than capacity + rate x length |
| `TokenBucket.LevelStaysNonNegative` | lib/ratelimit.go:272-294 | In every such history the running number stays non-negative |
| `TokenBucket.Bucket.Take` | lib/ratelimit.go:282-294 | Tokens are taken exactly when every window allows it, and the history gains this call |
| `TokenBucket.RateLimiter.AllowN` | lib/ratelimit.go:57-69 | n requests are granted exactly when every window allows them |
| `TokenBucket.RateLimiter.Allow` | lib/ratelimit.go:43-55 | One request is granted exactly when every window allows it |
| `CircuitBreaker.StateSummarisesHistory` | lib/circuitbreaker.go:108-160 | Closed means the counter is the current run of consecutive failures and below MaxFailures; lastFailure is the latest recorded failure; only Open ever refuses |
| `CircuitBreaker.OpensExactlyAtTheLimit` | lib/circuitbreaker.go:128-143 | A closed breaker opens on exactly the failure that completes a run of MaxFailures |
| `CircuitBreaker.OpenRefusesUntilTimeout` | lib/circuitbreaker.go:108-143 | Once open it stays open over any events in which each request comes before Timeout has passed since the latest failure, and admits a request if and only if Timeout has passed since then, late failures included |
| `CircuitBreaker.RecoveryTakesACleanTrial` | lib/circuitbreaker.go:108-160 | Any way from open back to closed contains a request admitted after the timeout, after which the breaker is half-open until it closes on exactly HalfOpenMax successes with no failure between |
| `CircuitBreaker.TrialOutcome` | lib/circuitbreaker.go:128-160 | During a trial the breaker closes exactly on the last missing success and opens exactly on a failure |
| `CircuitBreaker.CircuitBreaker.AllowRequest` | lib/circuitbreaker.go:108-126 | The answer and the new state are those of the step function |
| `CircuitBreaker.CircuitBreaker.RecordFailure` | lib/circuitbreaker.go:128-143 | The new state is that of the step function |
| `CircuitBreaker.CircuitBreaker.RecordSuccess` | lib/circuitbreaker.go:145-160 | The new state is that of the step function |
| `TaskHeap.Push` | scheduler/scheduler.go:216-242 | Pushing adds exactly one task and keeps the heap order |
| `TaskHeap.Pop` | scheduler/scheduler.go:216-230 | Popping takes exactly the root out and keeps the heap order |
| `TaskHeap.RootIsMaximal` | scheduler/scheduler.go:216-230 | No queued task has a higher priority than the root |
| `Scheduler.EveryRunKeepsInv` | scheduler/scheduler.go:208-288 | Over every interleaving of any number of workers, Adds and Stop the queue is a heap, tasks are conserved and every take was by priority |
| `Scheduler.TasksAreConserved` | scheduler/scheduler.go:232-288 | Added tasks = processed + discarded as expired + queued, as multisets, in every run |
| `Scheduler.TakenByPriority` | scheduler/scheduler.go:244-288 | Each task taken had maximal priority among those then queued and was processed exactly if unexpired when checked |
| `Scheduler.StopLeavesNothingQueued` | scheduler/scheduler.go:208-214 | When all workers, at least one, have left after Stop and nothing was added later, the queue is empty and every added task was processed or expired |
| `Scheduler.HistoriesComeFromEvents` | scheduler/scheduler.go:208-242 | In every run the tasks added are those of the Add calls, with their own expiry or five minutes; the scheduler is closed if and only if there was a Stop |
| `Scheduler.TurnDoesExactly` | scheduler/scheduler.go:244-288 | A ready or woken worker with the lock drains after a Stop, sleeps on an empty queue, and otherwise takes a task of maximal priority and processes it if and only if it has not expired |
| `Scheduler.EveryRunIsWakeful` | scheduler/scheduler.go:244-252 | In every run with a task queued and a worker left some worker is awake or has been signalled, and after a Stop nobody is left asleep |
| `Scheduler.SomeWorkerCanGoOn` | scheduler/scheduler.go:208-288 | In every run, with a task queued or after a Stop and a worker left, some worker's next step is possible: no wake-up is lost and Stop does not wait in vain |
| `Scheduler.PriorityScheduler.AddTask` | scheduler/scheduler.go:232-242 | Exactly the task joins the heap, unchanged if it has an expiry and otherwise only stamped with five minutes from now |
| `Scheduler.PriorityScheduler.TakeTurn` | scheduler/scheduler.go:244-288 | Under the lock a worker drains, sleeps, discards or processes, each exactly when it should, and takes only a task of maximal priority |
| `Scheduler.PriorityScheduler.DrainAll` | scheduler/scheduler.go:253-266 | The loop after Stop takes every queued task once, by falling priority, and processes exactly those unexpired at their clock reading |
| `Master.EveryRunIsConsistent` | master/master.go:390-488 | In every run each registered server has a heartbeat entry and is in its type's list, and heartbeat entries are the times last heard of |
| `Master.TablesComeFromEvents` | master/master.go:390-488 | In every run an id is registered, with the latest registration's data, if and only if it was not unregistered or found silent since; and which ids have a heartbeat entry |
| `Master.CheckRemovesExactlyTheSilent` | master/master.go:539-585 | In every run a check at time t removes a registered server if and only if it has been silent for more than 30 s; a survivor keeps its entry, its heartbeat and its place in its type's list |
| `Master.CheckForgets` | master/master.go:539-585 | From exact tables a check leaves no trace of the silent ids, and of every list exactly the other entries in their order |
| `Master.RegisterKeepsExactIffAbsent` | master/master.go:390-434 | From exact type lists, registering keeps them exact if and only if the id is not registered |
| `Master.ReRegistrationLeavesAStaleEntry` | master/master.go:390-466 | A run that registers an id twice and unregisters it once, after which the id is unknown but still listed under its type |
| `Master.ListsAreExactWithoutReRegistration` | master/master.go:390-488 | If ids are registered only while absent the type lists hold each registered server once and nothing else, in every run |
| `Master.UnregisterForgets` | master/master.go:436-466 | From exact lists, unregistering leaves of every list exactly the entries of other ids, in their order, and no trace of a registered id; an unknown id changes nothing |
| `Master.RegisterThenUnregister` | master/master.go:390-466 | Registering an unknown server and unregistering it again restores every table's contents |
| `Master.CutFirst` | master/master.go:448-455 | The search loop cuts out the first entry with the id and nothing else |
| `Master.MasterServer.AddServer` | master/master.go:826-835 | The three tables become those of the specification |
| `Master.MasterServer.HandleRegister` | master/master.go:390-434 | As AddServer, with the type taken from the second field when the first is empty |
| `Master.MasterServer.RemoveServer` | master/master.go:837-857 | An unknown id changes nothing; a known one is removed from all three tables |
| `Master.MasterServer.HandleHeartbeat` | master/master.go:468-488 | Only the heartbeat time changes |
| `Master.MasterServer.CheckHeartbeats` | master/master.go:539-585 | The expiry loop, in any iteration order, removes exactly the expired ids from the three tables |

## Left out

- Sockets, TLS, HTTP admin pages, timers, file watching, process spawning, command line tools: input and output with no semantics of its own; their results are parameters or environment choices.
- JSON and protobuf body encoding, `RegisterType` and reflection: bodies stay opaque bytes.
- Server registry, client SDKs, event emitter, configuration, logging, metrics, tracing, worker pool and connection limiters: not modelled.
- `clientConn.InvokeCtx`, the call over one lent connection, and the client manager: not modelled.
- `RateLimiter.Wait`, `WaitN` and `TokenBucket.WaitFor`: their progress depends on external signals.
- `CircuitBreaker.Reset` and the breaker groups; `RPCClientPool.Warmup` and `Stats`; `Compressor.Clear`, `RouterTable.Register` and the route manager: would only add easy members.
- Rounding of `float64` tokens and the width of int64 clocks, hash values and counters: modelled as `real` and unbounded `int`.
- SingleClient.EveryRunKeepsInv: the uint64 sequence counter does not wrap around; a value model, so sharing of the future objects between goroutines is represented by call ids.
- PoolClient.ReturnDoesExactly: stated for every state with the invariant that every run keeps, as are CloseDoesExactly, RpcClientPool.DialDoesExactly, PutDoesExactly and Scheduler.TurnDoesExactly.
- PoolClient.EveryRunConserves: a value model of the lock regions; a lent client is closed at most once, and clients do not replace broken connections.
- RpcClientPool.EveryRunIsBounded: a value model of the lock regions; each connection is returned at most once, and nil or broken connections are not returned.
- GenericPool.Pool.Put: takes only connections that Get handed out; nil connections and double returns are not modelled.
- GenericPool.Pool.constructor: asks that the initial connections fit the channel, since Go's send would block for ever otherwise.
- GenericPool.Pool.Warmup: asks that the new connections fit the channel, and that there are none once it is closed, where Go's send would panic.
- GenericPool.Pool.Stats: takes the three numbers from one state; the source reads them one after another without the lock, so other calls may come in between.
- HashRing.ConsistentHashSelector.RemoveServer: asks for a non-negative capacity, where Go panics; the step machine has the panic as a result.
- Framing.Connection.Receive: one session by itself, with its reads' bytes given; the buffers shared by all sessions are the matter of `ReadPool`.
- Framing.Connection.ReadLoop: records the messages offered to the session's channel; the drop of a message when that channel is full, read deadlines and the heartbeat update are not modelled.
- ReadPool.SessionsArePrivateWithoutCutOff: filling a buffer and appending from it are one step each; a race inside one copy, possible only after a cut-off, is not modelled.
- PacketReader.ReadFull: bytes arrive one at a time, since larger reads add up to the same; `SingleClient` takes the responses that arrive as events and does not contain this reader.
- Framing.FrameRoundTrip: `int` is taken to have 64 bits, so that the guard on the frame's length compares the real sizes.
- Framing.HandleConn: read timeouts, after which the source reads again, and read errors are not modelled.
- Framing.ProcessMessages: returns the commands instead of dispatching them on the spot.
- Codec.RoundTrip: the optional body types registered with `RegisterType` are not modelled.
- Pipeline.Pipeline.GetHandlers: the double-checked read lock is one atomic step, and the generation counter does not wrap.
- Pipeline.Context.Next: a handler is represented by how often it calls Next; a handler that panics is not modelled.
- TaskHeap.Push and TaskHeap.Pop: container/heap's sift loops are recursive functions on sequences, not updates in place.
- Scheduler.EveryRunKeepsInv: processTask changes only a retry count of the task, which is not modelled; nil tasks are not added.
- Master.MasterServer.HandleHeartbeat: the LastUpdate stamp written to a known server is not modelled.
- Master.MasterServer.HandleRegister: the state, count and time-stamp fields of a server, the connection table and the callbacks are not modelled.
- Fairness of the Go scheduler and liveness in general: only safety, and what each waiting party can do next, is stated.
