# net-flux: a verified model

net-flux is a Go networking base library. This project models its stateful and concurrent core in
Dafny and proves what that core promises over every input, every history of operations and every
interleaving of goroutines.

| file | what it models |
|---|---|
| `LruSpec.dfy`, `LruCache.dfy` | the LRU cache: the recency sequence, and the map plus circular linked list that refines it |
| `Wire.dfy`, `PacketIO.dfy` | the packet format; the writer and reader with reused buffers, partial writes and chunked reads |
| `Senders.dfy` | goroutines sharing one connection: writer mutex, write mutex, close, reconnect |
| `Reconnect.dfy` | the life of a client connection: Connect, drops, reconnect loops, Close |
| `Heartbeat.dfy` | the heartbeat goroutines that each connection of a client starts, on top of that |
| `Lookup.dfy`, `LookupProtocol.dfy` | service lookup: the client object, and all interleavings of lookups, acks, timeouts |
| `Registry.dfy` | the server's connection registry and its bounded close-notification queue |
| `Fnv.dfy` | the unrolled FNV-1a hash, bytes and then runes |
| `EndianStream.dfy` | typed reads and writes in both byte orders |
| `TtlCache.dfy` | the cache with expiry, atomic and with Get split into its lock sections |
| `Prober.dfy`, `Scheduler.dfy`, `RoundRobin.dfy` | probe accounting, the tick loop, round robin |
| `Common.dfy`, `Division.dfy` | shared types; integer division and 64-bit arithmetic used by the last group |

## How to read it

An object that the library updates in place is a class here, and each of its methods is specified by a
function on values (`LruSpec.Step`, `Wire.ReadPacket`, `Lookup.AckBufs`, `Reconnect.Apply`,
`Registry.Apply`, `TtlCache.Step`, `EndianStream.WriteField`, ...). The theorems are about those
functions, so they speak about the methods.

Concurrent code is a step system: a state, a list of steps (the code between two points where another
goroutine can be seen), and `Exec`, which gives the state after a run if every step of it was possible.
A theorem about `Exec(run)` for arbitrary `run` is a theorem about every interleaving. Granularity:
lock sections and channel operations are steps, and so are the body of `close()`'s `sync.Once` and a
successful dial together with the locked block that installs the connection
(`pkg/network/tcp_con.go:348-353`), although `close()` does not take `writeMu`. Where a step is allowed
more often than the code allows it (a `Swap` or `Unset` in `Senders` at any time the write mutex is
free), the theorems cover more runs than there are.

Fields marked "history" in the states only record what happened; no step depends on them.

## What turned out not to hold

Each item names the lemma with the exact condition under which the property holds and, where the failing
case is not plain from the condition, the lemma with a concrete run or input. For the last item only, the
condition is sufficient and not exact.

* `GetService(name, group)` can return a service of another name. It cannot, whatever acks arrive, if
  and only if `name` contains no `@` (`LookupProtocol.RightNameIff`); it also cannot if no group name
  involved contains `@` (`LookupProtocol.Soundness`).
* After the client's `Close`, the deferred delete of an old lookup can remove a newer lookup's entry
  (`LookupProtocol.LateDelete`). In every run it does so if and only if the entry under its key is not
  its own (`LookupProtocol.CleanupTakesAnotherIff`), that is, if and only if since the lookup started the
  entry went and a later lookup of the key made a new one (`LookupProtocol.LateDeleteIff`).
* `Close` on a connection is not always final: exactly when it is, is `Reconnect.CloseFinalIff`. A
  `Close` before `Connect` makes the connection impossible to close (`Reconnect.CloseBeforeConnect`).
* Two heartbeats can run on one connection (`Heartbeat.TwoHeartbeats`). There is never more than one if
  and only if every reconnect completes after the previous heartbeat has ended (`Heartbeat.OneIff`), and
  whenever there are two they can come to share a channel (`Heartbeat.DoubleIff`). A heartbeat can also
  outlive the connection for good (`Heartbeat.NeverEnds`), exactly when neither the channel it watches
  nor the current one was closed (`Heartbeat.EndsIff`).
* A sender whose check of the connection succeeded can find it gone and write to a nil connection
  (`Senders.CloseBetweenCheckAndLock`): if and only if, of the steps in between that close or install a
  connection, there is one and the last does not install (`Senders.PanicIff`).
* A stream cut right after a header ends in `io.EOF`, like one that ended cleanly (`Wire.Truncation`).
* `Hash` goes through FNV-1a's rounds if and only if the bytes after the last full block of eight are
  ASCII (`Fnv.SameRoundsIff`, `Fnv.NonAsciiTailDiffers`).
* A string of 65536 bytes or more does not survive `WriteString` and `ReadString`; everything else does
  (`EndianStream.ScriptRoundTrip`).
* A `Get` on the expiring cache that saw an expired entry can delete one set since
  (`TtlCache.LostUpdate`). Its delete removes a live entry if and only if the key was set again since its
  read and that entry is present and unexpired (`TtlCache.DeleteRemovesLiveIff`), and a live entry is
  missing if and only if such a delete came after its last set (`TtlCache.MissIff`).
* An open connection can be missing from the registry once ids wrap around (`Registry.IdsWrapAround`). The
  registry is conserved throughout a run if and only if no step overwrites or removes another connection's
  entry (`Registry.ConservedRunIff`), which needs more than 2^32 connections
  (`Registry.NoClobberBelowWrap`).
* The average and the jitter of measured times are wrong if and only if their 64-bit totals overflow
  (`Prober.AverageIff`, `Prober.JitterIff`).
* Strings that differ in one byte can collide (`Fnv.OneByteCollision`); they do not if the byte is in a
  full block or the tails are ASCII (`Fnv.NoOneByteCollision`). That condition is sufficient only: with
  other tails two different sequences of runes may or may not collide. What is hashed is the same for two
  strings of one length only if a byte of one was replaced (`Fnv.UnitsInjective`).

## Model

| member | source | states |
|---|---|---|
| LruSpec.StepValid | pkg/util/cache/lru.go:35-101 | every operation keeps keys distinct and the length within the limit, and a key just set is present with its value |
| LruSpec.PushKeepsNewest | pkg/util/cache/lru.go:66-71 | eviction down to the limit keeps keys distinct and never evicts the key just set |
| LruSpec.StepEffect | pkg/util/cache/lru.go:35-87 | Get changes no entry and answers with the key's value, Set and Delete change their own key, and a Set loses another entry only when the cache is full, and then the least recently used |
| LruSpec.AfterValid | pkg/util/cache/lru.go:24-101 | after every history on a new cache keys are distinct and there are at most as many as the limit asked for, or 1024 if that is not positive |
| LruSpec.ClosedIff | pkg/util/cache/lru.go:89-101 | a cache is closed, and then empty for good, if and only if its history has a Close |
| LruSpec.StepRelated | pkg/util/cache/lru.go:35-101 | one operation on a smaller and a larger cache keeps the small list a subsequence of the large, with the length difference bounded by the difference of limits; a non-nil answer of the smaller is the larger's |
| LruSpec.Inclusion | pkg/util/cache/lru.go:35-101 | for any limits m <= n (one that is not positive counts as 1024) and any one history, every key in the m-cache is in the n-cache with the same value |
| LruSpec.InclusionOfHits | pkg/util/cache/lru.go:35-50 | over any one history, a non-nil answer of the smaller cache is the larger cache's answer |
| LruSpec.Coherence | pkg/util/cache/lru.go:35-101 | after every history a cached value is the one last set for its key |
| LruSpec.StaysRetained | pkg/util/cache/lru.go:35-87 | while fewer than limit other keys are touched, everything ahead of the key was touched since its last use, so it is not evicted |
| LruSpec.Retention | pkg/util/cache/lru.go:35-87 | if fewer than limit distinct other keys (1024 for a limit that is not positive) were touched since a key was set or hit, with no Delete of it or Close since, Get returns the last value set for it |
| LruCache.List.InsertFront | pkg/util/cache/lru.go:66 | container/list insertion after the sentinel: the ring stays well linked and the node sequence is prefixed |
| LruCache.List.Unlink | pkg/util/cache/lru.go:117 | container/list removal: the ring stays well linked and exactly that position is dropped |
| LruCache.List.MoveToFront | pkg/util/cache/lru.go:48 | the ring stays well linked and exactly that node moves to the front |
| LruCache.List.Back | pkg/util/cache/lru.go:110 | the last node, or nil for an empty list |
| LruCache.LruCache.constructor | pkg/util/cache/lru.go:24-33 | a new cache, on memory of its own, is the empty recency sequence with the limit asked for, or 1024 |
| LruCache.LruCache.AbstractValid | pkg/util/cache/lru.go:15-21 | agreement of ring and map makes the recency sequence one with distinct keys within its limit |
| LruCache.LruCache.Get | pkg/util/cache/lru.go:35-50 | map and list stay in agreement; state and answer are those of the recency sequence |
| LruCache.LruCache.Set | pkg/util/cache/lru.go:52-73 | map and list stay in agreement; the new state is that of the recency sequence |
| LruCache.LruCache.Update | pkg/util/cache/lru.go:60-64 | a present key's node moves to the front with the new value |
| LruCache.LruCache.Evict | pkg/util/cache/lru.go:69-71 | the eviction loop terminates and cuts the sequence to the limit |
| LruCache.LruCache.Delete | pkg/util/cache/lru.go:75-87 | map and list stay in agreement; the new state is that of the recency sequence |
| LruCache.LruCache.Close | pkg/util/cache/lru.go:89-101 | the cache is closed and empty, once |
| LruCache.LruCache.Length | pkg/util/cache/lru.go:103-107 | the number of entries |
| LruCache.LruCache.RemoveOldest | pkg/util/cache/lru.go:109-114 | the last entry goes from list and map alike |
| LruCache.LruCache.RemoveElement | pkg/util/cache/lru.go:116-120 | the node's entry goes from list and map alike, the others stay |
| LruCache.Replay | pkg/util/cache/lru.go:24-101 | any history of operations on a new cache object gives the state and the answers of the recency sequence, so the theorems above hold of the object, and the list has at most as many nodes as the limit asked for |
| Wire.HeaderRoundTrip | pkg/network/tcp_reader.go:96-105 | parsing the eight header bytes gives the header back |
| Wire.FrameLayout | pkg/network/tcp_writer.go:50-56 | the frame byte by byte: big-endian length, command, sub-command, version 1, flags 0, reserved 0, payload |
| Wire.ReadFrame | pkg/network/tcp_reader.go:109-139 | a frame at the head of a stream is read back with version 1, flags 0, reserved 0, and exactly its bytes are consumed |
| Wire.ReadConsumes | pkg/network/tcp_reader.go:109-139 | on any stream, the bytes of a packet read are its header, its payload and the rest; a failure is never "packet too large" |
| Wire.ReadAny | pkg/network/tcp_reader.go:109-139 | any header followed by as many bytes as it says is read back, whatever its version, flags and reserved byte |
| Wire.ReadFailsIff | pkg/network/tcp_reader.go:114-136 | a read fails if and only if the stream ends before the header and the bytes it announces; with EOF exactly at the start or right after a header |
| Wire.ReadCutFrame | pkg/network/tcp_reader.go:114-136 | a frame cut short is an error: EOF right after the header, unexpected EOF elsewhere |
| Wire.ReadFrames | pkg/network/tcp_reader.go:61-81 | whole frames are delivered in order and what follows is read as if they had not been there |
| Wire.RoundTrip | pkg/network/tcp_writer.go:25-73 | for every list of messages, reading their frames gives exactly that list and then a clean end |
| Wire.Truncation | pkg/network/tcp_reader.go:61-81 | on every byte prefix exactly the frames wholly contained are delivered, then an error, which is EOF exactly on a frame boundary or right after a header |
| PacketIO.WriteAll | pkg/network/tcp_writer.go:62-73 | whatever partial writes occur, all bytes go out in order, or on an error a prefix of the counted length; it fails exactly if a write did |
| PacketIO.TcpWriter.Fill | pkg/network/tcp_writer.go:42-56 | the reused buffer holds exactly the frame and its capacity never shrinks |
| PacketIO.TcpWriter.WritePacket | pkg/network/tcp_writer.go:25-60 | exactly one frame on success, a prefix of it on a failed write, nothing on any other error, and which error when |
| PacketIO.ReadFull | pkg/network/tcp_reader.go:114-136 | whatever the chunking, the bytes taken from the stream are at the head of the buffer: all asked for, or everything there was if the end came first, or some if the read broke |
| PacketIO.TcpReader.ReadPacket | pkg/network/tcp_reader.go:109-139 | whatever the chunking, the result is that of the byte stream unless the read breaks; the buffer's capacity never shrinks and stays within 4096..65535 |
| PacketIO.TcpReader.Loop | pkg/network/tcp_reader.go:61-81 | whatever the handler answers and wherever the loop ends, the packets delivered are the first ones of the stream in order, and all of them, with the stream's own error, unless it was cancelled, closed, or a read broke |
| PacketIO.SendAll | pkg/network/tcp_writer.go:25-73 | any list of messages goes out as their frames in order; on a failure, as the frames of those sent and a part of the next |
| PacketIO.EndToEnd | pkg/network/tcp_reader.go:44-81 | for any list of messages, any partial writes and any chunking, what arrives is a prefix of what was sent, nothing sent is missed by a loop that came to the end, and if all was sent it is exactly the list and then a clean end |
| Senders.Reachable | pkg/network/tcp_con.go:187-194 | the lock, buffer and connection invariant holds in every interleaving |
| Senders.WholeFrames | pkg/network/tcp_writer.go:39-73 | in every interleaving, until a write fails on a connection its bytes are whole frames followed by a proper prefix of the write mutex holder's frame |
| Senders.PeerReceives | pkg/network/tcp_con.go:187-194 | in every interleaving the peer of such a connection decodes exactly the completed sends in order of completion, each being the message its Begin step was given |
| Senders.SentOnce | pkg/network/tcp_con.go:187-194 | no send is completed twice, on one connection or on two |
| Senders.SendCompletes | pkg/network/tcp_writer.go:25-60 | in every reachable state with an open connection and free mutexes, an idle goroutine's send can run to its end and puts exactly its frame on the current connection |
| Senders.NoSplit | pkg/network/tcp_con.go:187-194 | no send has bytes on two connections, across reconnects and failures, every byte having its send on record |
| Senders.OneWriter | pkg/network/tcp_con.go:241-260 | at most one goroutine is writing, heartbeat and stale writers included |
| Senders.NoLockLeak | pkg/network/tcp_writer.go:39-60 | in every interleaving a mutex that is held is held by a send that has not got to its unlock, whether sends succeeded, failed or panicked |
| Senders.CurrentIsNewest | pkg/network/tcp_con.go:348-353 | every reconnect installs a raw connection of its own, and the current one is always the newest |
| Senders.CloseDuringWrite | pkg/network/tcp_con.go:294-329 | a Close can come while a send is writing, and the send goes on with the connection it picked |
| Senders.OpenIff | pkg/network/tcp_con.go:187-194 | from an open connection on, there is a connection if and only if the last step since that closes or installs one installs one |
| Senders.PanicIff | pkg/network/tcp_con.go:187-194 | a sender whose check succeeded writes to a nil connection if and only if, in the steps between, the last that closes or installs a connection closes it |
| Senders.CloseBetweenCheckAndLock | pkg/network/tcp_con.go:187-194 | a run in which it did, and the sender goes on with a nil connection |
| Reconnect.OneDriverStep | pkg/network/tcp_con.go:281-372 | at most one of Connect, a read loop and a reconnect loop is in charge, kept by every step |
| Reconnect.Reachable | pkg/network/tcp_con.go:281-372 | the connection invariant holds in every run |
| Reconnect.OneDialler | pkg/network/tcp_con.go:331-372 | in every run at most one reconnect loop can still dial |
| Reconnect.NoDoubleClose | pkg/network/tcp_con.go:294-304 | in every run each close channel is closed at most once |
| Reconnect.DialsBounded | pkg/network/tcp_con.go:338-346 | each drop causes at most ReconnectMax dials if that is positive, none if negative |
| Reconnect.DialsCounted | pkg/network/tcp_con.go:338-346 | a loop's count of dials is the number of its dial steps in the run |
| Reconnect.DialsAgainIff | pkg/network/tcp_con.go:338-346 | in every reachable state a loop between attempts can dial again if and only if ReconnectMax is zero or it has dialled fewer times |
| Reconnect.LoopPerDrop | pkg/network/tcp_con.go:324-326 | in every run there are as many reconnect loops as read loops' aborts that found a connection if reconnecting is enabled, and otherwise none; Close starts none |
| Reconnect.ClosedFlagIff | pkg/network/tcp_con.go:348-363 | once a drop has started a reconnect loop, the closed flag is set if and only if there is no connection |
| Reconnect.UpIsLastDialled | pkg/network/tcp_con.go:222-239 | in every run a connection that is up is the one dialled last, and unless Close came before Connect a read loop, Connect or a reconnect loop looks after it |
| Reconnect.CloseFinalIff | pkg/network/tcp_con.go:281-329 | in every reachable state, Close is final if and only if Connect was called, the once has not fired on the current connection, and no reconnect loop can dial again |
| Reconnect.CloseWhileConnected | pkg/network/tcp_con.go:281-329 | a Close made while connected, with no reconnect going on and none made before Connect, is final |
| Reconnect.CloseBeforeConnect | pkg/network/tcp_con.go:294-300 | a Close before Connect leaves a connection that Close does not close |
| Reconnect.QuietRun | pkg/network/tcp_con.go:281-372 | once quiet, no continuation dials or brings a connection up |
| Reconnect.TcpConn.constructor | pkg/network/tcp_con.go:51-61 | a new client connection is the start state |
| Reconnect.TcpConn.Connect | pkg/network/tcp_con.go:222-239 | an undisturbed Connect is the dial step and, if that succeeded, the init step |
| Reconnect.TcpConn.ConnectFirst | pkg/network/tcp_con.go:222-229 | the dial is the dial step, and no channel is closed twice |
| Reconnect.TcpConn.ConnectSecond | pkg/network/tcp_con.go:230-238 | initIO is the init step from whatever state others left meanwhile, and fails exactly if the handler does or the connection was closed |
| Reconnect.TcpConn.CloseOnce | pkg/network/tcp_con.go:294-329 | the body of close runs once, with ErrNoReady exactly when it found no connection, and never closes a channel twice |
| Reconnect.TcpConn.Close | pkg/network/tcp_con.go:281-283 | Close is the close step in every state, also before Connect |
| Reconnect.TcpConn.ReaderExit | pkg/network/tcp_reader.go:45-60 | the deferred function of the read loop is the reader's end step and aborts exactly if the connection is not closed |
| Reconnect.TcpConn.AbortClose | pkg/network/tcp_con.go:287-292 | the abort is the reader's abort step |
| Reconnect.TcpConn.DialOnce | pkg/network/tcp_con.go:342-353 | a dial and the locked block are the dial step |
| Reconnect.TcpConn.InitOnce | pkg/network/tcp_con.go:355-370 | initIO and giving up are the init step |
| Reconnect.TcpConn.ReconnectLoop | pkg/network/tcp_con.go:331-372 | undisturbed, the retry loop is a run of dial and init steps; it connects if and only if one of the attempts up to ReconnectMax succeeds, and otherwise dials once for each, exactly ReconnectMax times on a fresh loop with enough attempts |
| Heartbeat.Reachable | pkg/network/tcp_con.go:235-260 | in every run heartbeats are started for different connections, one each at most, and none watches a channel older than its own |
| Heartbeat.SelectsOwnIff | pkg/network/tcp_con.go:246-258 | from its start on, a heartbeat selects on its own connection's channel if and only if no dial has succeeded since |
| Heartbeat.SharesIff | pkg/network/tcp_con.go:246-258 | a heartbeat that selects while another waits watches the same channel if and only if no dial succeeded between the two selects |
| Heartbeat.OwnIff | pkg/network/tcp_con.go:246-258 | throughout a run every heartbeat watches only its own channel if and only if none selected after a newer connection was installed |
| Heartbeat.OnePerChannel | pkg/network/tcp_con.go:246-258 | and then at most one heartbeat watches each channel |
| Heartbeat.DoubleIff | pkg/network/tcp_con.go:246-258 | in every reachable state, two heartbeats can come to watch one channel by themselves if and only if two are alive |
| Heartbeat.OneIff | pkg/network/tcp_con.go:365-367 | throughout a run at most one heartbeat is alive if and only if no Connect or reconnect completes while one is |
| Heartbeat.EndsIff | pkg/network/tcp_con.go:255-256 | once no connection can come up again, a heartbeat can still end if and only if the channel it watches or the current one is closed |
| Heartbeat.TwoHeartbeats | pkg/network/tcp_con.go:241-260 | a run in which two heartbeats watch one channel of a live connection |
| Heartbeat.NeverEnds | pkg/network/tcp_con.go:355-363 | a run after which reconnecting has been given up and a heartbeat can never end |
| Lookup.GetService | pkg/naming/rpc_client.go:137-145 | the service at the least index with the name, else the first service, else not found |
| Lookup.SelectsFirst | pkg/naming/rpc_client.go:137-141 | if some service has the name, the answer is the entry at the least such index |
| Lookup.PickInstance | pkg/naming/rpc_client.go:321-335 | the first healthy and enabled instance, the first one if there is none, an error exactly without instances |
| Lookup.AtoiDecimal | pkg/naming/rpc_client.go:263-266 | strconv.Atoi reads every 64-bit number back from its decimal form |
| Lookup.AtoiShape | pkg/naming/rpc_client.go:263-266 | and accepts nothing but digits after at most one sign, within 64 bits |
| Lookup.RpcClient.constructor | pkg/naming/rpc_client.go:350-357 | a new client has no entries |
| Lookup.RpcClient.Register | pkg/naming/rpc_client.go:255-277 | an entry is made unless the group is not a number or the key is taken, in which cases nothing changes |
| Lookup.RpcClient.HandleLookupAck | pkg/naming/rpc_client.go:209-253 | exactly the channels of addressed keys are offered the services, each once; an empty ack wakes all |
| Lookup.RpcClient.DeliverOne | pkg/naming/rpc_client.go:222-240 | the three keys of a service are delivered to, skipping those done |
| Lookup.RpcClient.WakeAll | pkg/naming/rpc_client.go:244-252 | an ack without services offers an empty result to every waiter |
| Lookup.RpcClient.Close | pkg/naming/rpc_client.go:49-58 | every waiter is offered the closed error and the entries go |
| LookupProtocol.AlwaysBijection | pkg/naming/rpc_client.go:255-283 | in every interleaving each entry points to an unfinished lookup of its key, and before Close entries and such lookups are in bijection |
| LookupProtocol.StartIff | pkg/naming/rpc_client.go:255-277 | in every run before Close, a lookup is refused, changing nothing, if and only if its group is no number or a lookup of the same key is unfinished |
| LookupProtocol.CleanupTakesAnotherIff | pkg/naming/rpc_client.go:279-283 | in every run, Close included, a deferred delete takes another unfinished lookup's entry if and only if the entry under its key is not its own |
| LookupProtocol.LateDeleteIff | pkg/naming/rpc_client.go:279-283 | in terms of the run: if and only if since the lookup's start its entry was removed and a later Start of the same key made a newer one that is still there |
| LookupProtocol.EntryTracked | pkg/naming/rpc_client.go:255-283 | what has become of a lookup's entry (its own, gone, a newer one's) follows from the Close, Start and delete steps since |
| LookupProtocol.CleanupRemovesOnlyItsOwn | pkg/naming/rpc_client.go:279-283 | before Close a deferred delete leaves every other lookup's entry in place |
| LookupProtocol.LateDelete | pkg/naming/rpc_client.go:279-283 | a run after Close in which it takes a newer lookup's entry |
| LookupProtocol.AlwaysContent | pkg/naming/rpc_client.go:209-253 | in every interleaving what a channel holds or a lookup returned was addressed to it |
| LookupProtocol.ResultsFromAcks | pkg/naming/rpc_client.go:209-253 | in every interleaving a lookup comes back with services only if an ack of the run brought exactly them |
| LookupProtocol.KeyInjective | pkg/naming/rpc_client.go:317-319 | name@group is injective for groups without @ |
| LookupProtocol.KeyPlain | pkg/naming/rpc_client.go:317-319 | a key with no further @ determines the name |
| LookupProtocol.Soundness | pkg/naming/rpc_client.go:132-146 | in every interleaving GetService answers with the first received service of the name asked for, or an error for an empty ack, if the name has no @ or no group has |
| LookupProtocol.RightNameIff | pkg/naming/rpc_client.go:132-146 | the answer has the right name against every ack if and only if the name has no @; otherwise a run with the wrong service |
| LookupProtocol.AnsweredRun | pkg/naming/rpc_client.go:255-315 | a lookup answered by an addressed ack returns that ack's services |
| LookupProtocol.AckWakes | pkg/naming/rpc_client.go:209-253 | before Close, an ack naming a waiter's service and group, or an empty ack, fills its channel with the ack unless it is filled |
| LookupProtocol.CloseWakes | pkg/naming/rpc_client.go:49-58 | Close leaves the closed error in the channel of every lookup that has received nothing |
| LookupProtocol.StaysAwake | pkg/naming/rpc_client.go:303-314 | a filled channel keeps what it holds until its waiter receives |
| LookupProtocol.CanFinish | pkg/naming/rpc_client.go:279-314 | in every run a lookup whose write fails or whose timeout comes ends with an error and frees its key |
| Registry.Reachable | pkg/network/tcp_server.go:79-110 | ids, queue and flags are consistent in every run; the n-th connection has id n + 1 modulo 2^32 |
| Registry.Conservation | pkg/network/tcp_server.go:79-110 | at every loop boundary before shutdown, unless a step overwrote or removed another connection's entry, the map holds exactly the entered connections that are open, queued, or lost their notification; no open one is missing |
| Registry.ConservedStep | pkg/network/tcp_server.go:165-229 | kept by every step that touches no other connection's entry, with connections closing at any time, also during registration |
| Registry.ConservedIff | pkg/network/tcp_server.go:165-229 | a step keeps it if and only if it neither enters a connection under an id in use nor removes the entry of another connection |
| Registry.ConservedRunIff | pkg/network/tcp_server.go:79-110 | over whole runs up to shutdown, however many connections: conserved after every step if and only if no step did so |
| Registry.NoClobberBelowWrap | pkg/network/tcp_server.go:218-227 | with at most 2^32 connections made no step does so |
| Registry.ConservationBelowWrap | pkg/network/tcp_server.go:79-110 | Conservation for every run with at most 2^32 connections |
| Registry.CloseNotifies | pkg/network/tcp_con.go:385-395 | a closing connection is queued while fewer than 16 are, and otherwise the queue stays as it is and the notification is lost |
| Registry.ClosesAnyTime | pkg/network/tcp_con.go:294-329 | an open connection can close at any moment, also before it is entered, and is then queued or marked |
| Registry.LostIff | pkg/network/tcp_con.go:389-393 | in every run exactly the connections that closed on a full queue lost their notification |
| Registry.ExactWhenDrained | pkg/network/tcp_server.go:94-98 | with an empty queue, a connection that did not close on a full one is in the map if and only if it is open |
| Registry.Drains | pkg/network/tcp_server.go:94-98 | from every reachable boundary the queue can be emptied, oldest first |
| Registry.ClosedIsRemoved | pkg/network/tcp_server.go:94-98 | and then, with at most 2^32 connections, the map holds exactly the entered ones that are open or closed on a full queue |
| Registry.ShutdownClosesAll | pkg/network/tcp_server.go:112-132 | after shutdown no connection is open, and map and queue are empty |
| Registry.IdsWrapAround | pkg/network/tcp_server.go:218-227 | after 2^32 + 1 registrations the first connection is open and not in the map |
| Registry.TcpServer.constructor | pkg/network/tcp_server.go:35-45 | a new server is the initial state |
| Registry.TcpServer.OnClose | pkg/network/tcp_con.go:385-395 | the notification is queued if fewer than 16 are, and dropped otherwise |
| Registry.TcpServer.RegisterConn | pkg/network/tcp_server.go:199-229 | accept and insert steps; an error return leaves the connection out of the map |
| Registry.TcpServer.HandleOutgoing | pkg/network/tcp_server.go:94-98 | the oldest notification is handled by removing whatever its connection's id maps to: the take step |
| Registry.TcpServer.CloseConns | pkg/network/tcp_server.go:171-197 | the map is emptied and exactly its connections are closed |
| Registry.TcpServer.DrainOutgoing | pkg/network/tcp_server.go:148-157 | the queue is emptied and its connections' ids go from the map |
| Registry.TcpServer.Stop | pkg/network/tcp_server.go:112-132 | the shutdown step, once |
| Fnv.Hash | pkg/util/md5.go:25-47 | for every string, the FNV-1a rounds over the bytes of the full blocks and then the runes of the rest |
| Fnv.Round8 | pkg/util/md5.go:32-39 | the unrolled body is eight rounds over the next eight bytes |
| Fnv.HashRunes | pkg/util/md5.go:42-44 | the rounds over the decoded runes |
| Fnv.DecodeEncoded | pkg/util/md5.go:42-44 | ranging over a string decodes UTF-8 as section 3 of RFC 3629 encodes it, for every scalar value |
| Fnv.EncodeDecoded | pkg/util/md5.go:42-44 | what is decoded is encoded by the bytes it was decoded from, unless a byte was replaced by U+FFFD |
| Fnv.ReplacedIff | pkg/util/md5.go:42-44 | which happens if and only if no encoding of a scalar value starts there |
| Fnv.SameRoundsIff | pkg/util/md5.go:25-47 | what is hashed is the bytes if and only if the tail is ASCII |
| Fnv.HashIsFnv1a | pkg/util/md5.go:25-47 | with an ASCII tail the hash is the byte-by-byte FNV-1a of section 2 of draft-eastlake-fnv, modulo 2^64 |
| Fnv.NonAsciiTailDiffers | pkg/util/md5.go:42-44 | a two-byte string with another hash |
| Fnv.UnmixMix | pkg/util/md5.go:8-11 | a round is undone with the inverse 0xce965057aff6957b of the prime |
| Fnv.FoldInjective | pkg/util/md5.go:25-47 | the same rounds never map two states to one |
| Fnv.OneUnitDiffers | pkg/util/md5.go:25-47 | sequences that differ in exactly one unit never collide |
| Fnv.NoOneByteCollision | pkg/util/md5.go:25-47 | strings of equal length that differ in exactly one byte never collide if that byte is in a full block of eight, or if both tails are ASCII |
| Fnv.UnitsInjective | pkg/util/md5.go:25-47 | different strings of one length are hashed from the same units only if some byte was replaced |
| Fnv.OneByteCollision | pkg/util/md5.go:42-44 | the one-byte strings 0x80 and 0x81 hash alike |
| EndianStream.ByteReversal | pkg/network/stream/stream.go:196-221 | the two encodings of a fixed-width field are byte reversals of each other |
| EndianStream.ByteAt | pkg/network/stream/stream.go:196-221 | byte k of a field of any width is its digit to base 256 at k from the most significant end, or from the least significant end if little-endian |
| EndianStream.FixedRoundTrip | pkg/network/stream/stream.go:120-145 | a fixed-width field is read back, in both orders |
| EndianStream.BigIsHeaderOrder | pkg/network/stream/stream.go:196-203 | the big-endian 16-bit field is the packet header's |
| EndianStream.ReadTotal | pkg/network/stream/stream.go:111-145 | a typed read fails exactly for want of bytes |
| EndianStream.WriteScriptExact | pkg/network/stream/stream.go:187-251 | a script of writes succeeds exactly if its bytes fit, puts exactly them at the position and touches nothing else |
| EndianStream.StringLayout | pkg/network/stream/stream.go:242-251 | a string is its length modulo 2^16 in two bytes, in the stream's order, and then its bytes |
| EndianStream.FailedWrite | pkg/network/stream/stream.go:223-251 | a write that fails changes nothing, except that a string whose bytes do not fit leaves its length behind |
| EndianStream.FailedRead | pkg/network/stream/stream.go:147-177 | a read that fails leaves the position, except that a string whose bytes are not all there has consumed its length |
| EndianStream.ReadBackField | pkg/network/stream/stream.go:111-177 | one field is read back if and only if it is not a string of 65536 bytes or more |
| EndianStream.ScriptRoundTrip | pkg/network/stream/stream.go:101-381 | for any successful script of writes, reading with the same types returns the same values if and only if no string is 65536 bytes or longer, in both orders |
| EndianStream.ByteStream.Store | pkg/network/stream/stream.go:223-235 | bytes go to the position if there is room, and nothing else changes |
| EndianStream.ByteStream.WriteNumber | pkg/network/stream/stream.go:187-221 | the typed writes of one to eight bytes |
| EndianStream.ByteStream.WriteBuff | pkg/network/stream/stream.go:223-235 | raw bytes; a nil slice is refused by the big-endian stream only |
| EndianStream.ByteStream.WriteString | pkg/network/stream/stream.go:242-251 | length modulo 2^16 and contents; it can fail after the length |
| EndianStream.ByteStream.ReadNumber | pkg/network/stream/stream.go:111-145 | the typed reads: value and new position, or nothing |
| EndianStream.ByteStream.ReadBuff | pkg/network/stream/stream.go:147-155 | the next bytes, or nothing |
| EndianStream.ByteStream.ReadString | pkg/network/stream/stream.go:167-177 | as many bytes as the length says, or an error that may have consumed the length |
| EndianStream.ByteStream.CopyBuff | pkg/network/stream/stream.go:179-185 | the next bytes without moving the position, also into the stream's own buffer |
| TtlCache.AgreesStep | pkg/util/cache/inmem.go:29-97 | one operation on the cache and on a reference that is never cleaned up keeps them equal up to expired entries and gives the same answer |
| TtlCache.CleanupUnobservable | pkg/util/cache/inmem.go:29-97 | with a monotone clock, over every history every answer is the reference's |
| TtlCache.AnswerFromHistory | pkg/util/cache/inmem.go:29-65 | with a monotone clock Get answers, by the history alone, with the value last set and not deleted or closed away since, up to and including its set time plus ttl, and with nil after |
| TtlCache.RefIsLastSet | pkg/util/cache/inmem.go:43-65 | the reference holds for every key what was last set and neither deleted nor closed away since |
| TtlCache.Reachable | pkg/util/cache/inmem.go:29-52 | with Get in two lock sections, the invariant holds in every interleaving |
| TtlCache.RefOfRun | pkg/util/cache/inmem.go:29-65 | the reference of an interleaving is that of its operations |
| TtlCache.GetAnswers | pkg/util/cache/inmem.go:29-41 | in every interleaving a Get hands back the entry present at its read if it is unexpired at its check, goes on to delete if it is expired, and hands back nothing otherwise |
| TtlCache.HitsAreGenuine | pkg/util/cache/inmem.go:29-41 | every value returned was the latest set when read and unexpired when checked |
| TtlCache.LostIff | pkg/util/cache/inmem.go:29-41 | a key is marked lost if and only if, of the steps that set it or are a Get's delete of it, the last is a delete |
| TtlCache.MissIff | pkg/util/cache/inmem.go:29-41 | in every interleaving, a live entry is missing if and only if a Get's delete hit its key after it was last set |
| TtlCache.DeleteRemovesLiveIff | pkg/util/cache/inmem.go:29-41 | a Get's delete removes a live entry if and only if the key was set again between its read and its delete and that entry is present and unexpired |
| TtlCache.LostUpdate | pkg/util/cache/inmem.go:36-39 | a run in which that happens |
| TtlCache.InMemCache.Get | pkg/util/cache/inmem.go:29-52 | the Get step; an expired entry is gone after it and no other key is touched |
| TtlCache.InMemCache.Set | pkg/util/cache/inmem.go:43-45 | a set with a lifetime of 24 hours |
| TtlCache.InMemCache.SetWithTTL | pkg/util/cache/inmem.go:54-65 | the set step, ignored once closed |
| TtlCache.InMemCache.SweepAt | pkg/util/cache/inmem.go:72-80 | exactly the entries past their expiration go, in whatever order they are visited |
| TtlCache.InMemCache.Close | pkg/util/cache/inmem.go:87-97 | closed and empty, once |
| Prober.Probe | pkg/dataflow/task/net_prober.go:67-101 | on all exit paths answers plus failures are the probe count, and the answers are those before the first late round |
| Prober.AnswerAt | pkg/dataflow/task/net_prober.go:90-101 | every answer before the stop is recorded, in order |
| Prober.AnswersCounted | pkg/dataflow/task/net_prober.go:90-101 | and nothing else is |
| Prober.Stop | pkg/dataflow/task/net_prober.go:72-89 | the probes stop at the first round that finds the deadline passed before it or in its pause |
| Prober.AverageDuration | pkg/dataflow/task/net_prober.go:312-322 | the truncated quotient of the 64-bit sum, which is the true mean if and only if the sum fits |
| Prober.JitterDuration | pkg/dataflow/task/net_prober.go:324-338 | the truncated quotient of the 64-bit total of absolute differences of neighbours; the true one, if no difference overflows, if and only if the total fits |
| Prober.AverageIff | pkg/dataflow/task/net_prober.go:312-322 | the average computed in 64 bits is the true one if and only if the sum fits 64 bits |
| Prober.JitterIff | pkg/dataflow/task/net_prober.go:324-338 | likewise the jitter of values whose neighbours are less than 2^63 apart, as measured times are |
| Prober.SumConcat | pkg/dataflow/task/net_prober.go:317-321 | the sum is additive |
| Prober.VariationConcat | pkg/dataflow/task/net_prober.go:329-336 | the total of differences of a concatenation adds the step between its parts |
| Prober.AverageBetween | pkg/dataflow/task/net_prober.go:312-322 | the average lies between the smallest and the largest value |
| Prober.JitterBounds | pkg/dataflow/task/net_prober.go:324-338 | jitter is at most the spread, and the drift from first to last is below (n-1)*(jitter+1) |
| Prober.ReportAccounts | pkg/dataflow/task/net_prober.go:132-156 | loss is the failed share in [0,1]; the unreachable report (5000 ms, 5001 ms, loss 1, status 0) is made exactly when every probe failed, and otherwise the last status is reported |
| Prober.ReportedTimes | pkg/dataflow/task/net_prober.go:158-180 | for times below 2^31 ms whose sum fits 64 bits, the reported time is the mean in whole ms and at least 1, the jitter the mean difference of neighbours in whole ms |
| Prober.MillisWrap | pkg/dataflow/task/net_prober.go:158-171 | the conversion to 32 bits keeps the milliseconds modulo 2^32 |
| Scheduler.Task.Run | pkg/dataflow/task/machine_report_task.go:34-38 | next is the end plus the interval, and spacing is kept if the task was due |
| Scheduler.Scheduler.AddTask | pkg/dataflow/task/scheduler.go:39-43 | appended, in place or in a new backing array |
| Scheduler.Scheduler.GetTasks | pkg/dataflow/task/scheduler.go:45-51 | an equal copy in memory of its own |
| Scheduler.Scheduler.RemoveTask | pkg/dataflow/task/scheduler.go:53-62 | exactly the first task of the id goes, by moving the rest in place |
| Scheduler.Scheduler.Tick | pkg/dataflow/task/scheduler.go:103-116 | a task listed at the start runs in the tick if and only if it has not run yet or its interval has passed since its last end, whatever is added or removed meanwhile, and spacing is kept |
| Scheduler.RunTicks | pkg/dataflow/task/scheduler.go:92-119 | over any number of ticks, with any changes to the list before and during each, every start of a task is at least its interval after its previous end, even if listed twice |
| RoundRobin.RoundRobinBalancer.Pick | pkg/balancer/robin.go:22-36 | the next index, always in range and never overflowing, its instance, and the total weight in 64 bits; an error and no change without instances |
| RoundRobin.SumWeights | pkg/balancer/robin.go:27-30 | the sum of the weights modulo 2^64, signed |
| RoundRobin.TotalConcat | pkg/balancer/robin.go:27-30 | the total weight is additive |
| RoundRobin.CountExact | pkg/balancer/robin.go:33-35 | how often a position is chosen, exactly |
| RoundRobin.Fairness | pkg/balancer/robin.go:33-35 | from any index, in m consecutive picks each of n positions is chosen m/n times rounded down or up |

## Left out

- Protobuf messages, command dispatch (`gen/`, `proto/`, `pkg/network/misc/proto.go`): payloads are byte sequences, and what a handler makes of them is an arbitrary answer.
- Redis, the shared cache, Nacos, the balancers' `Resolve`, the logger, system metrics and the environment helpers: thin wrappers over code that is not visible here.
- Socket options, TLS, HTTP probing, URLs and DNS: only their success or failure is kept.
- Wall-clock waits in the server's shutdown (`pkg/network/tcp_server.go:134-146`, `pkg/network/tcp_server.go:192-196`): the path on which they are satisfied is modelled.
- Memory-model data races on fields accessed without a lock, and interleavings inside `close()`'s once-body.
- More than one `Connect` on a client, and connections without an event handler (which have no read loop).
- The scheduler's `Start` and `Stop`, the accept goroutine's errors, and the client wrapper `TcpClient`: plumbing around what is modelled.
- Nil instances in a service given to the balancer, which panic.
- `MD5`, `MD5Bytes` and `SimpleHash` (`pkg/util/md5.go:13-23`, `pkg/util/md5.go:49-58`): a wrapper and a plain sum.
- `container/list` is not part of the repository; the list class follows the ring with a sentinel that the standard library documents, and an entry's key and value are fields of its node.
- A stored nil and a miss are one and the same answer of `Get`, in the library and in the model.
- The stream's `Read` and `Write` adapters (`pkg/network/stream/stream.go:157-165`, `pkg/network/stream/stream.go:237-240`), and `ReadBuff` with a negative size, which panics.
- PacketIO.TcpWriter.WritePacket: calls the raw connection's writeAll directly, because the connection's own Write either takes everything or fails, so the outer writeAll makes one call.
- Scheduler.Task.Run: tasks that never set their next time (`pkg/dataflow/task/net_report_task.go:26-28`) run at every tick and are not modelled.
- Fnv.HashIsFnv1a: one direction on hash values; for some non-ASCII tails the two hashes may still coincide, so the exact condition is stated on what is hashed (Fnv.SameRoundsIff).
- Fnv.NoOneByteCollision: one direction; see the last item of "What turned out not to hold".
- PacketIO.WriteAll: the connection below it may write short without an error as long as it takes some bytes, which io.Writer does not allow; the theorems hold all the same.
- PacketIO.TcpReader.Loop: without its deferred function, which is Reconnect.TcpConn.ReaderExit and Reconnect.TcpConn.AbortClose.
- Prober.JitterDuration: with differences of 2^63 and more, which measured times do not have, there is no exact condition; the value computed is stated for them too.
- Reconnect.TcpConn.Connect: one Connect per client; its halves, between which others may act, are stated separately.
- Reconnect.TcpConn.ReconnectLoop: for an undisturbed loop; with other goroutines in between, the loop's dial and init steps are those of Reconnect.Apply.
- Registry.ShutdownClosesAll: at a loop boundary, and unless a step overwrote or removed another connection's entry, as Registry.Conservation.
- Registry.TcpServer.Stop: the timed waits are taken as satisfied.
- RoundRobin.RoundRobinBalancer.Pick: weights are the integers their floating-point values truncate to.
