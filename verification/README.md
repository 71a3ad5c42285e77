# A verified model of the caching HTTP proxy

The project models the part of the proxy where its promises are made: the shared cache and its
reader-writer lock, the forwarding pipeline (read from the origin, relay to the client, store, serve),
the response parser with its freshness calculation, and the CONNECT tunnel. `dafny verify
dfyconfig.toml` checks all of it.

## How the files fit together

| files | what they hold |
|---|---|
| `CacheEntries`, `CacheSpec`, `CacheTraces` | the cached value and 64-bit time; the sequential meaning of the cache; theorems about whole traces of operations |
| `Linking`, `RecencyList`, `Locks`, `Cache` | how list and iterators agree; the cache as the source builds it: heap nodes, iterators, two maps, a mutex and its guards, each method proved against `CacheSpec` |
| `CacheThreads` | any number of threads, one step per lock operation and per statement; linearizability |
| `Text`, `Numbers`, `Request`, `Response` | string search; which texts are numbers; the cache key; the header parser as a class whose fields change step by step |
| `Sockets`, `Relay`, `Handler` | sockets as schedules of `recv` and `send` results; what a forwarding run does; the loops themselves |
| `Freshness`, `RoundTrip`, `Serve` | until when an entry is served, what the parser reads back from what a hit sends, what reaches the client |
| `Tunnel` | the two-way copy loop under `poll` |
| `FailingInputs` | concrete responses and runs on which the code departs from what one would expect |
| `Proxy` | all of it as one transition system with a clock that never goes back; the end-to-end theorems |

Where the source updates state, the model has a class or a loop whose `ensures` equates the new state
with a function of the old one; what that function means is then proved by lemmas. In `Cache` and
`Handler` a method that takes the lock requires that the lock is free, which is when `lock()` returns;
waiting, and everything other threads do meanwhile, is the subject of `CacheThreads` and `Proxy`.

## What the proofs show about the code

- The three structures of the cache agree whenever no writer is at work, no erased iterator is ever
  used, and every answer is that of the sequential cache in lock order. In every run the keys held are
  exactly the most recently written ones, and a larger cache holds everything a smaller one does.
- The comments call the cache LRU. A lookup does not touch the order, so it is "least recently
  *written*" (`ReadsChangeNothing`, `HoldsMostRecentWrites`). `put` evicts before it looks whether the
  key is resident: overwriting at capacity can evict another key (`DistinctKeysTight`) or shrink the
  cache by one (`SizeAfterPut`), and capacity 0 is capacity 1 (`CapacityZeroIsOne`).
- A hit sends the very bytes that the storing thread had forwarded to its own client after the header,
  and the headers it had parsed. In every run of any number of threads no entry is held whose last
  Cache-Control line says `no-store`, none is served whose last one says `no-cache` or
  `must-revalidate`, and a response with a positive s-maxage or max-age is served no later than Date
  plus that age (`Proxy`). Other lifetimes are the subject of the next point.
- An entry is served for ever exactly if its expiry time comes out as the value for "no expiry", it was
  fresh when stored and Cache-Control does not forbid it (`ServedForever`). That is so for every
  unrestricted response without a positive age and without `Expires`, one with `max-age=0` included
  (`ZeroAgeIsServedForever`). An `Expires` so early that its nanoseconds leave 64 bits can wrap around to
  a future time (`AncientExpiresIsServed`); `ExpiresBound` gives the exact condition. The expiry time and
  the freshness flag differ exactly when Date plus lifetime leaves 64 bits (`FreshIffUnexpired`).
- Only the last Cache-Control line decides about storing: a response with `no-store` in an earlier one is
  stored (`StoredUnlessLastForbids`, `EarlierNoStoreIsIgnored`).
- Once the whole header has arrived, the cutting of the origin's stream into reads has no effect on a
  plain body: one without chunking, and with no length or no more bytes than the length says
  (`WholeStream`, `SegmentationIndependence`).
  Elsewhere it can have one. A read of a chunked body that happens to end with the bytes of a last
  chunk stops the run, although the stream goes on, and a body past its Content-Length is read up to the
  read that reaches it (`StreamRead` and `ChunkedStream` say exactly when; `CutDecidesTheBody` shows one
  stream stored in two ways). And a read that fails in the middle of the header does not end the run: the
  body loop reads on, the client gets everything, and nothing is stored (`CutHeaderIsNotStored`).
  Content-Length and the chunked marker are looked for in everything the first loop read, body bytes
  included, which is a third way unless they are in the header or nowhere (`Settled`).
- A Content-Length that is no number makes the run throw after the client was given the head; an error
  page then follows on the same connection (`ThrowsExactly`, `CaughtDelivers`).
- A bare line feed in the status line hides further header lines in it, which every hit sends again.
  Body and stored headers are read back all the same; `StoredRoundTrip` says exactly for which status
  lines other headers come back with them, and `HiddenLineIsServed` shows one.
- The tunnel ends as soon as either side does. What it has read in a direction it has delivered unless a
  delivery in that very direction broke (`Tunnel.Integrity`), but what the other side has sent and nobody
  has read is lost: exactly that, and nothing else (`LeftUnread`, `TunnelLeavesBytes`).
- For a response with a positive age or an Expires after the epoch the code's freshness is that of the
  standard, with one exception: a Date in the future with an Expires between it and the clock is stale
  by the standard and fresh to the code (`FreshMatchesStandard`, `FutureDateIsFresh`). A
  max-age so large that Date plus age leaves 64 bits is fresh and expired at once
  (`LargestAgeIsExpired`).
- `Cache-Control: private` does not prevent storing, and header names and directives are compared
  case-sensitively, in the model as in the code. Hosts that differ in the port alone share their cache
  entries (`PortsShareEntry`).

## Model

| member | source | states |
|---|---|---|
| `Locks.ReaderLock.constructor` | proxy/utils/locks.hpp:54-56 | a new guard holds one more share of the mutex and has released nothing |
| `Locks.ReaderLock.Unlock` | proxy/utils/locks.hpp:68-73 | gives the share back if it still has it, and only then |
| `Locks.ReaderLock.Destroy` | proxy/utils/locks.hpp:58-62 | releases exactly if an early unlock has not |
| `Locks.WriterLock.constructor` | proxy/utils/locks.hpp:85-87 | the mutex is then held exclusively |
| `Locks.WriterLock.Unlock` | proxy/utils/locks.hpp:99-104 | releases once; further calls do nothing |
| `Locks.WriterLock.Destroy` | proxy/utils/locks.hpp:89-93 | releases exactly if an early unlock has not |
| `Locks.ReaderScope` | proxy/utils/locks.hpp:48-74 | a guarded scope with any number of early unlocks takes the mutex once and releases it exactly once |
| `Locks.WriterScope` | proxy/utils/locks.hpp:79-105 | the same for the exclusive guard |
| `RecencyList.List.PushFront` | proxy/cache.cpp:23-24 | a fresh live node in front, all other nodes linked as before |
| `RecencyList.List.PopBack` | proxy/cache.cpp:10 | exactly the last node is unlinked |
| `RecencyList.List.Erase` | proxy/cache.cpp:20 | legal for a live node only; exactly that node is unlinked |
| `RecencyList.List.Clear` | proxy/cache.cpp:66 | no node is left |
| `Linking.LinkedKeys` | proxy/cache.cpp:17-25 | list and iterators that agree have the same keys, each once, and each iterator is the cell holding its key |
| `Cache.IteratorIsLive` | proxy/cache.cpp:18-20 | a stored iterator is a live node of this list |
| `Cache.LinkedErase` | proxy/cache.cpp:53-57 | erasing a node and its iterator keeps the agreement and drops just that key |
| `Cache.Cache.constructor` | proxy/cache.cpp:4 | an empty cache with an unheld mutex |
| `Cache.Cache.ValidContents` | proxy/cache.hpp:44-46 | when the structures agree the abstract state is valid and the map is as large as the list |
| `Cache.Cache.EvictOldest` | proxy/cache.cpp:7-14 | drops the last key from all three structures, or does nothing when empty |
| `Cache.Cache.UpdateAccessOrder` | proxy/cache.cpp:17-25 | the key moves to the front, the others keep their order, although the map may be one key ahead of the list |
| `Cache.Cache.Get` | proxy/cache.cpp:28-36 | the entry held under the key, order and contents unchanged, the shared lock returned |
| `Cache.Cache.PutLocked` | proxy/cache.cpp:41-45 | capacity test, eviction and write refine the sequential `put` |
| `Cache.Cache.StoreNewest` | proxy/cache.cpp:44-45 | write and move to front, keeping all three structures in agreement |
| `Cache.Cache.Put` | proxy/cache.cpp:39-46 | the whole `put` refines the sequential one and leaves the lock free |
| `Cache.Cache.RemoveLocked` | proxy/cache.cpp:51-59 | the key leaves all three structures, or nothing changes |
| `Cache.Cache.Remove` | proxy/cache.cpp:49-60 | the whole `remove` refines the sequential one and leaves the lock free |
| `Cache.Cache.Clear` | proxy/cache.cpp:63-68 | all three structures are empty |
| `Cache.Cache.IsValid` | proxy/cache.cpp:71-75 | true exactly for a held entry that is not expired at the clock read after the lock is gone |
| `Cache.Cache.Size` | proxy/cache.cpp:78-81 | the number of entries, which is the length of the list |
| `CacheSpec.WithoutAt` | proxy/cache.cpp:18-21 | erasing a key from a list without duplicates is erasing one position |
| `CacheSpec.MakeRoomValid` | proxy/cache.cpp:41-43 | making room drops at most the oldest key, and keeps the invariant |
| `CacheSpec.RunValid` | proxy/cache.cpp:7-68 | after any trace list and map hold the same keys, each once |
| `CacheTraces.SizeBound` | proxy/cache.cpp:39-46 | the size never exceeds the capacity, or 1 for capacity 0 |
| `CacheTraces.Inclusion` | proxy/cache.cpp:39-60 | on one trace the smaller cache's order is a prefix of the larger one's, with equal values |
| `CacheTraces.CapacityZeroIsOne` | proxy/cache.cpp:41-43 | capacities 0 and 1 cannot be told apart |
| `CacheTraces.UnboundedHoldsSurvivors` | proxy/cache.cpp:17-25 | a cache that never evicts holds exactly the keys whose last write was not undone, newest first, with the values last put |
| `CacheTraces.BoundedWithinUnbounded` | proxy/cache.cpp:7-46 | the bounded order is a prefix of the unbounded one |
| `CacheTraces.HoldsMostRecentWrites` | proxy/cache.cpp:17-46 | the keys held are the most recently written surviving ones, in the order of their writes |
| `CacheTraces.GetReturnsLastPut` | proxy/cache.cpp:28-36 | a successful lookup gives the last value put since the last remove or clear |
| `CacheTraces.ReadsChangeNothing` | proxy/cache.cpp:32 | deleting all lookups from a trace leaves the final state the same |
| `CacheTraces.SurvivesPuts` | proxy/cache.cpp:39-46 | a key that is not removed survives any capacity - 1 later puts |
| `CacheTraces.SurvivesDistinctKeys` | proxy/cache.cpp:39-46 | it survives any number of puts on capacity - 2 distinct other keys |
| `CacheTraces.DistinctKeysTight` | proxy/cache.cpp:41-45 | for every capacity from 2 on, capacity - 1 distinct other keys can evict it, by overwriting at capacity |
| `CacheTraces.GoneAfterDistinctKeys` | proxy/cache.cpp:7-14 | without removes a key is gone once capacity distinct other keys were put |
| `CacheTraces.SizeAfterPut` | proxy/cache.cpp:39-46 | a put at capacity shrinks the cache exactly when the key was resident and not the oldest |
| `CacheTraces.SizeStaysNearCapacity` | proxy/cache.cpp:39-46 | once capacity - 1 is reached, runs without remove and clear stay at capacity - 1 or capacity |
| `CacheThreads.LiveIterator` | proxy/cache.cpp:18-20 | under the invariant a key has an iterator exactly if it has an entry, and the iterator names a live cell |
| `CacheThreads.EffectRefines` | proxy/cache.cpp:39-68 | each operation run to its end restores the invariant and has the sequential effect |
| `CacheThreads.StatementProgress` | proxy/cache.cpp:7-68 | each statement of a writer leads to the state its next statement expects; none is undefined |
| `CacheThreads.DoInv` | proxy/cache.cpp:28-81 | every lock operation and statement of every thread keeps the system invariant |
| `CacheThreads.MutualExclusion` | proxy/utils/locks.hpp:79-105 | in every schedule a thread inside a write is the only one inside any operation |
| `CacheThreads.NeverUndefined` | proxy/cache.cpp:8-10 | in every schedule no dead iterator is erased and no empty list is read |
| `CacheThreads.SettledState` | proxy/cache.cpp:39-68 | when no write is in progress the structures agree and mean the operations so far, run in lock order |
| `CacheThreads.Linearizability` | proxy/cache.cpp:28-81 | every answer given is that of the sequential cache at the operation's place in the lock order |
| `CacheThreads.HistoryGrows` | proxy/cache.cpp:28-81 | the lock order and the answers given are never revised |
| `CacheThreads.RealTimeOrder` | proxy/utils/locks.hpp:54-88 | an operation that returned before another took its lock precedes it in the lock order |
| `CacheThreads.HitIsLastPut` | proxy/cache.cpp:28-36 | in every schedule a found entry is the latest put on its key in lock order |
| `CacheThreads.FinishesInTime` | proxy/cache.cpp:7-68 | whatever the other threads do, an operation that has its lock is finished after at most eleven statements of its own |
| `CacheThreads.NeverStuck` | proxy/cache.cpp:28-81 | in every reachable state a thread that has its lock can go on |
| `CacheThreads.NoDeadlock` | proxy/utils/locks.hpp:48-105 | where a thread has to wait, another one holds the lock and can go on |
| `CacheThreads.LockGranted` | proxy/utils/locks.hpp:48-105 | in every reachable state, exactly when a waiting thread may take the lock: readers share, a writer needs it alone |
| `CacheThreads.WriteAlone` | proxy/cache.cpp:39-68 | a write that starts with the lock free and runs alone ends with the sequential effect and the lock free |
| `Request.SplitHost` | proxy/request.cpp:53-60 | the hostname has no colon; hostname, first colon and port make up the Host value; the port is 80 without a colon |
| `Request.Request.Parse` | proxy/request.cpp:36-60 | hostname and port are those of the Host value, or of the old hostname when there is none |
| `Request.PortOfHost` | proxy/request.cpp:53-60 | the port connected to is the number behind the colon of the Host value, and 80 without a colon or with nothing behind it |
| `Request.FirstMark` | proxy/handler.cpp:191 | where the hostname ends can be read off the key |
| `Request.KeyInjective` | proxy/handler.cpp:493 | distinct pairs of plain hostname and rooted or absolute target have distinct keys |
| `Request.SharedKey` | proxy/handler.cpp:191 | for any hostnames and targets, exactly which pairs share a key |
| `Request.KeyNotInjective` | proxy/handler.cpp:191 | both restrictions are needed |
| `Request.PortsShareEntry` | proxy/request.cpp:57-60 | requests that differ in the port alone have the same key |
| `Text.FindFrom` | proxy/handler.cpp:399 | the first occurrence at or after a position, or none |
| `Text.FindInLonger` | proxy/handler.cpp:365 | reading further never moves an occurrence already found |
| `Text.NextLine` | proxy/response.cpp:45 | the text up to the next line feed and what remains; every line consumes something |
| `Numbers.NumberRead` | proxy/handler.cpp:400 | spaces, a sign or none and digits up to anything that is no digit give the number the digits write, or nothing if it is out of range |
| `Numbers.NoNumberRead` | proxy/handler.cpp:400 | without a digit behind spaces and sign there is no number |
| `Response.Response.constructor` | proxy/response.hpp:58-74 | the initial values of the fields |
| `Response.Response.ProcessCacheControl` | proxy/response.cpp:87-100 | flags of this value alone, ages kept unless given; fails where a number does not parse |
| `Response.Response.ProcessHeader` | proxy/response.cpp:50-71 | the effect of one header on every field |
| `Response.Response.ManageCacheTime` | proxy/response.cpp:119-135 | expiry time, freshness and age, in 64-bit arithmetic |
| `Response.Response.ValidateFreshness` | proxy/response.cpp:142-151 | validation is needed exactly if not fresh or the last Cache-Control says so |
| `Response.Response.Parse` | proxy/response.cpp:21-78 | the loop computes the fields of all header lines, or fails as the source throws, and cuts the body at the first empty line |
| `CacheEntries.Seconds` | proxy/response.cpp:120 | the whole second that a clock reading lies in, of 1000000000 ticks |
| `Freshness.FreshMatchesStandard` | proxy/response.cpp:119-133 | for every parsed response with a lifetime, the flag is that of sections 4.2.1 and 4.2.3 of RFC 7234 except exactly where Expires alone counts and lies between the clock and a later Date |
| `Freshness.FreshIffUnexpired` | proxy/response.cpp:123-130 | for every parsed response with a lifetime, flag and expiry time say the same exactly when Date plus lifetime fits 64 bits |
| `Freshness.ServedForever` | proxy/cache.hpp:31-35 | exactly which stored entries are served at every time |
| `Freshness.NoLifetimeServedForever` | proxy/response.cpp:126-133 | without a positive age and without Expires, for ever exactly unless Cache-Control forbids it |
| `Freshness.StoredTimes` | proxy/handler.cpp:487-488 | expiry and validation flag of every stored entry, in terms of the header it was stored from |
| `Freshness.ExplicitAgeBound` | proxy/cache.hpp:31-35 | with an explicit age L an entry is served no later than Date + L, whatever the clock and the overflow |
| `Freshness.ExplicitAgeExact` | proxy/cache.hpp:31-35 | where the ticks fit, served exactly if fresh when stored, allowed by Cache-Control and not past Date + L |
| `Freshness.ExpiresBound` | proxy/response.cpp:129-133 | without an age, no service after Expires exactly if Expires is positive, its ticks stay negative or Cache-Control forbids serving |
| `Freshness.ExpiresBoundInRange` | proxy/cache.hpp:31-35 | in particular for every date whose ticks fit 64 bits, negative ones included |
| `Freshness.ExpiredStaysExpired` | proxy/cache.hpp:31-35 | an entry found expired is expired at any later time |
| `Freshness.AgreeThroughout` | proxy/response.cpp:45-73 | over all header lines every field stays that of the last header that gives it: flags, ages, dates, texts, numbers and markers |
| `Freshness.FieldsFromText` | proxy/response.cpp:45-100 | for every response that parses: each field is what its header lines say; s-maxage and max-age are the numbers behind those directives in the last Cache-Control line that has one, or -1 |
| `Freshness.ParsesExactly` | proxy/response.cpp:21-100 | a response parses exactly if it has a header end and every Content-Length and every age in its Cache-Control lines is a number in range |
| `Freshness.ServedUntil` | proxy/response.cpp:119-135 | from the text: no service after Date plus s-maxage, else Date plus max-age, else Expires |
| `Freshness.EntryFromText` | proxy/handler.cpp:466-490 | from the text: status line, body, validators and exactly the seven listed headers, each with the value of its last line |
| `Freshness.CopiedHeaders` | proxy/handler.cpp:473-483 | exactly the listed headers with a nonempty value are stored, with that value |
| `Freshness.StoredDirectives` | proxy/handler.cpp:463-490 | no entry carries `no-store`; one with `no-cache` or `must-revalidate` always needs validation |
| `Freshness.StoredUnlessLastForbids` | proxy/handler.cpp:463-464 | from the text: stored exactly if the header ends, every number in it parses and the last Cache-Control line does not contain `no-store` |
| `Sockets.SendAllExact` | proxy/handler.cpp:46-62 | under every schedule of partial, interrupted and failed sends the peer has a prefix, and all of it exactly on success |
| `Sockets.SendAllSteps` | proxy/handler.cpp:46-62 | how many bytes are sent, how many results of `send` are used up and what is returned, all from the counts accepted |
| `Sockets.SendAllStatus` | proxy/handler.cpp:50-59 | succeeds exactly if the counts accepted before any failure add up to the data, fails exactly if a failure comes before that, and otherwise waits |
| `Sockets.InterruptsIgnored` | proxy/handler.cpp:52-56 | leaving the interrupted calls out of a schedule changes neither what is sent nor what is returned |
| `Sockets.PatientSends` | proxy/handler.cpp:46-62 | a schedule without failures and with as many accepting calls as bytes sends them all |
| `Sockets.Socket.SendAll` | proxy/handler.cpp:46-62 | the loop delivers and consumes what the schedule says, and ends |
| `Relay.ReadHeadReads` | proxy/handler.cpp:349-369 | the header loop reads a prefix of the stream and finds a header end exactly if the stream has one |
| `Relay.ReadHeadSteps` | proxy/handler.cpp:349-369 | how many reads the header loop makes, what it has after them, and which of them ended it |
| `Relay.HeaderEndInStream` | proxy/handler.cpp:365-366 | the header end found is where it is in the whole stream, however the chunks cut it |
| `Relay.BodyRunInv` | proxy/handler.cpp:421-455 | while the body loop goes on, the client has everything read and the buffer is what followed the header |
| `Relay.BodyProgress` | proxy/handler.cpp:391-455 | with Content-Length N and no chunking at most max(1, N - received) reads; a normal end means N bytes or the end of the stream |
| `Relay.LengthRead` | proxy/handler.cpp:396-401 | a first Content-Length line with the decimal text of n up to its end gives n |
| `Relay.NoLength` | proxy/handler.cpp:392-401 | there is no length exactly without such a line or with 0 in the first one |
| `Relay.LastChunkEnds` | proxy/handler.cpp:448-451 | the read ends with "0\r\n\r\n", whatever comes before it |
| `Relay.LengthStops` | proxy/handler.cpp:442-445 | a finished run with length n in the text read until n bytes of the body or the end of the stream had come, and not further |
| `Relay.LengthCompletes` | proxy/handler.cpp:442-445 | with length n in the text and a stream that stays open, the run finishes exactly if n bytes of the body come |
| `Relay.RelayCompletes` | proxy/handler.cpp:421-455 | for a client that takes everything the run finishes exactly if the length, a last chunk or the end of the stream is reached |
| `Relay.StoreReadsHeaderOnly` | proxy/handler.cpp:460 | bytes read beyond the header have no influence on the parsed header |
| `Relay.Transparent` | proxy/handler.cpp:383-514 | a run that ends well gave the client exactly the bytes read, and stores a function of those bytes alone |
| `Relay.SameBytesSameResult` | proxy/handler.cpp:349-510 | two runs that read the same bytes deliver the same; they store the same except in exactly one case |
| `Relay.StreamRead` | proxy/handler.cpp:349-510 | a run that ends well has read, relayed and considered for storing a prefix of the stream, all of it exactly if no read before the last completed the body |
| `Relay.WholeStream` | proxy/handler.cpp:391-455 | a stream with a plain body is read, relayed and stored whole, however it is cut |
| `Relay.ChunkedStream` | proxy/handler.cpp:447-453 | a chunked stream is read short of its end exactly if a read before the last ends with the bytes of a last chunk |
| `Relay.SettledLength` | proxy/handler.cpp:396-401 | a length in the header, or nowhere, is taken the same however much was read with the header |
| `Relay.SegmentationIndependence` | proxy/handler.cpp:349-510 | two runs on one stream, cut in any two ways, agree exactly if they read the same, which they do for every plain body |
| `Relay.RelayFailure` | proxy/handler.cpp:386-432 | once relaying began, a failed run leaves the client a prefix, a proper one if a send failed, and stores nothing |
| `Relay.RelayRefused` | proxy/handler.cpp:386-432 | refused exactly if something read was not all delivered and a send failed; otherwise it waits for the client, or for an origin that has sent nothing more |
| `Relay.FailureStoresNothing` | proxy/handler.cpp:296-514 | no failed run stores anything; before relaying the client gets at most an error page |
| `Relay.NothingComesBack` | proxy/handler.cpp:303-375 | what the client gets when nothing was read from the origin: 400, 502, nothing or a throw, and exactly when |
| `Relay.RefusedExactly` | proxy/handler.cpp:349-432 | the same for a whole run that has read something; while the header has not ended the client has nothing and the run waits |
| `Relay.StoresExactly` | proxy/handler.cpp:383-494 | a run stores something exactly if it ends well, for a GET, with a whole header that begins with the 200 status, parses and lacks `no-store` in its last Cache-Control line |
| `Relay.ThrowsExactly` | proxy/handler.cpp:396-401 | once it relays, a run throws exactly if the head was sent and its Content-Length is no number |
| `Relay.CaughtDelivers` | proxy/handler.cpp:169-171 | the connection gives the client a prefix of what was read, except that in exactly that case an error page follows the head |
| `Handler.ReadHeader` | proxy/handler.cpp:349-369 | the loop reads what the function on schedules says and ends |
| `Handler.RelayChunk` | proxy/handler.cpp:422-439 | one iteration: a read and its delivery, in every outcome |
| `Handler.RelayBody` | proxy/handler.cpp:420-455 | the loop relays, keeps and stops as the function on schedules says |
| `Handler.StoredHeaders` | proxy/handler.cpp:473-483 | the loop copies exactly the listed nonempty headers |
| `Handler.BuildEntry` | proxy/handler.cpp:458-490 | the entry of the parsed header, or none where parsing fails or `no-store` is set |
| `Handler.SendErrorResponse` | proxy/handler.cpp:516-526 | the peer gets the error page, or the prefix that the sends allow |
| `RoundTrip.ErrorPageIsResponse` | proxy/handler.cpp:517-522 | the page has its status line, headers, separator and text where a client looks for them |
| `Handler.RelayResponse` | proxy/handler.cpp:383-510 | relay from the first byte sent to the client to the decision to store |
| `Handler.FetchAndRelay` | proxy/handler.cpp:303-491 | everything in `forwardRequest` up to the `put` |
| `Handler.FetchAndCatch` | proxy/handler.cpp:169-171 | the same with what is thrown turned into an error page on the same socket |
| `Handler.ForwardRequest` | proxy/handler.cpp:296-514 | client, origin and cache after the call, in every outcome |
| `Handler.ProcessGetRequest` | proxy/handler.cpp:189-257 | a live entry is sent and the cache unchanged; otherwise the request is forwarded |
| `Handler.SendEntry` | proxy/handler.cpp:225-255 | status line, headers in iteration order, empty line and body are sent |
| `Serve.ServesWholeEntry` | proxy/handler.cpp:235-246 | the client gets a prefix of the emitted response, and all of it exactly if the hit succeeds |
| `Serve.GetServes` | proxy/handler.cpp:194-255 | with an unexpired entry the origin gets and gives nothing, the client is sent that entry, and the call succeeds exactly if all of it arrives; otherwise the outcome is the forwarding run |
| `Serve.ServeFailure` | proxy/handler.cpp:235-246 | a hit fails only where a send fails, and waits only where none does |
| `RoundTrip.StoredIsServable` | proxy/handler.cpp:468-483 | every stored entry has the shape that can be emitted and read back |
| `RoundTrip.FirstHeaderEnd` | proxy/response.cpp:23 | in a block without an empty line followed by the separator, the separator is the first header end |
| `RoundTrip.BodyReadBack` | proxy/handler.cpp:225-243 | the first header end in what a hit sends is the emitted separator, and the body follows it |
| `RoundTrip.JoinedReadBack` | proxy/response.cpp:45-73 | reading the emitted header lines sets each header, up to a carriage return |
| `RoundTrip.StoredRoundTrip` | proxy/handler.cpp:225-243 | for every stored entry: emit in any order, parse; it parses, with the same body and every header up to a carriage return, and with no other header exactly if the status line is harmless |
| `RoundTrip.HeadersAsParsed` | proxy/handler.cpp:473-483 | what is read back are the stored headers as the first parser saw them, up to a carriage return |
| `RoundTrip.HeadersOnly` | proxy/response.cpp:45-73 | acceptance and header map depend on the text and the map before alone |
| `RoundTrip.HiddenReadBack` | proxy/handler.cpp:378-379 | what a status line hides was accepted once and is accepted again, and the entry's headers come back on top of it |
| `RoundTrip.HiddenLineIsRead` | proxy/handler.cpp:378-379 | a header line behind a bare line feed in the status line of a stored response is read back from every hit |
| `Tunnel.Integrity` | proxy/handler.cpp:547-592 | for sockets with any past, after any number of iterations and in each direction on its own: what was read is what the source offered so far, a prefix of it is delivered, and all of it exactly if no delivery in that direction is broken |
| `Tunnel.LoopHeadExact` | proxy/handler.cpp:547 | at every loop head both directions are exact, from whatever past |
| `Tunnel.LeftUnread` | proxy/handler.cpp:547-598 | a direction whose deliveries did not fail loses exactly what its source still offers when the loop has ended |
| `Tunnel.EndsForAReason` | proxy/handler.cpp:547-598 | the last return of `poll` ended the loop: it failed, or reported a hangup, the end of a stream or bytes that could not be delivered |
| `Tunnel.StepOutcome` | proxy/handler.cpp:547-592 | one return of `poll`: exactly the sides marked readable are read, one event each; it ends the loop exactly on a failed poll, a hangup, the end of a stream or a failed delivery |
| `Tunnel.ReadsAsMarked` | proxy/handler.cpp:547-592 | at every loop head and at the end, each side was read as often as `poll` marked it readable |
| `Tunnel.CopyOnce` | proxy/handler.cpp:561-571 | one read and its delivery through the shared buffer |
| `Tunnel.TunnelTraffic` | proxy/handler.cpp:528-599 | the loop does what the function on schedules says for both peers |
| `Proxy.ExecInv` | proxy/handler.cpp:189-257 | in every run of the whole system: the cache invariant, what each handler holds, and where every put came from |
| `Proxy.CacheIsThreaded` | proxy/handler.cpp:194 | the cache in the whole system is a schedule of `CacheThreads`, so its theorems hold here |
| `Proxy.EntriesComeFromGets` | proxy/handler.cpp:383-494 | at any moment every entry comes from a finished forwarding run of a GET answered with status 200 |
| `Proxy.NoStoreNeverCached` | proxy/handler.cpp:463-494 | at no moment does the cache hold an entry with `no-store` |
| `Proxy.EndToEnd` | proxy/handler.cpp:189-257 | what a lookup finds is the latest put on its key, and its body is byte for byte what the storing thread gave its own client after the header |
| `Proxy.DirectivesRespected` | proxy/cache.hpp:31-35 | no hit comes from an entry with `no-cache` or `must-revalidate` |
| `Proxy.HitsAreFresh` | proxy/handler.cpp:199-218 | in every run a hit is no later than what the lines of the response that was relayed say: Date plus s-maxage, else Date plus max-age, else Expires if that is positive or its ticks stay negative |
| `Proxy.ServedExactlyIfHeld` | proxy/handler.cpp:194-218 | in every reachable state a lookup serves exactly if the map holds an unexpired entry, and serves that entry; otherwise the request is forwarded |
| `Proxy.StoredIsHeld` | proxy/handler.cpp:458-494 | from any reachable state, a forwarding run that stores an entry ends with that entry under its key in the map |
| `Proxy.StoredIsServed` | proxy/handler.cpp:189-257 | right after such a store the next lookup on the key serves that entry exactly if it is unexpired |
| `Proxy.PostPassesBy` | proxy/handler.cpp:259-262 | a POST goes to the origin and leaves the cache as it is |
| `Proxy.HitsFormTimePrefix` | proxy/handler.cpp:194-218 | between two puts of a key, no hit follows a judgement that found the entry expired |
| `Proxy.HitReadBack` | proxy/handler.cpp:225-246 | under every send schedule: a hit that succeeds gives its client the body that the storing thread's client was given, and up to a carriage return the stored headers as the storing thread parsed them |
| `FailingInputs.AncientExpiresIsServed` | proxy/handler.cpp:487 | a response with an Expires in the year 1000 is stored and served in 2023 |
| `FailingInputs.ZeroAgeIsServedForever` | proxy/response.cpp:126-133 | a response with `max-age=0` is stored and served at any time |
| `FailingInputs.EarlierNoStoreIsIgnored` | proxy/response.cpp:87-89 | a response with `no-store` in the first of two Cache-Control lines is stored |
| `FailingInputs.HiddenLineIsServed` | proxy/handler.cpp:378-379 | a response is stored without headers, and every hit sends the header hidden in its status line |
| `FailingInputs.CutHeaderIsNotStored` | proxy/handler.cpp:352-358 | two runs that read and deliver the same bytes, of which one stores nothing |
| `FailingInputs.CutDecidesTheBody` | proxy/handler.cpp:447-453 | one chunked stream cut in two ways is stored with two different bodies |
| `FailingInputs.FutureDateIsFresh` | proxy/response.cpp:129-130 | a response whose Expires lies before its future Date is fresh to the code |
| `FailingInputs.LargestAgeIsExpired` | proxy/response.cpp:126-128 | a response with the largest age that parses is fresh and its entry expired |
| `FailingInputs.TunnelLeavesBytes` | proxy/handler.cpp:547-584 | the client ends its stream and bytes of the server are never read |

## Left out

- Sockets, DNS, `poll`, `fcntl`, `setsockopt` and descriptors (proxy/socket.cpp): foreign calls; what
  they return is a schedule that every theorem quantifies over. Schedules are finite and a run whose
  schedule is used up is still inside a call, so the theorems cover every prefix of every run; whether
  a peer ever answers is not modelled.
- Threads, the pool, `usleep`, start-up (proxy/main.cpp, proxy/handler.cpp:64-97): a run of `Proxy` is
  any interleaving of handler steps. One forwarding run is one step at the moment its header is parsed;
  until its `put` it touches only its own sockets.
- The rest of `handle_connection` (proxy/handler.cpp:99-187): reading the request, the 400 and 501
  replies, closing; the 500 reply to what a forwarding run throws is in the model. The set-up of a CONNECT tunnel is left out with it.
- Logging and the text of times; a date too large for `asctime` to print is not modelled.
- The request parser of Boost.Beast: method, target and Host are inputs.
- `parse_time`: any function from strings to 64-bit seconds; `difftime` is exact subtraction.
- Signed 64-bit overflow in `date_ + max_age_` and in `from_time_t` is undefined in C++; the model
  wraps around in two's complement.
- Null checks of the logger and the cache, and failure to create a socket.
- `version_`, `status_code_`, `status_phrase_` and the raw text of a response: set and never used here.
- Conditional GET: the code forwards the request as it is, so there is no revalidation to prove.
- `ScopedLock` and `ConnectionGuard` (proxy/utils/locks.hpp:12-161): not used by the proxy.
- Bytes and characters are one type, `char`, and nothing depends on their width.
- Copying an entry in `get` is one step of `CacheThreads`; under the shared lock no one can change it.
