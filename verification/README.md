# The sfslite runtime in Dafny

A model of the asynchronous RPC runtime of sfslite 1.2, with proofs of what it promises. `dafny verify dfyconfig.toml`
checks all of it.

**Resumable RPC sessions** (`SessionLanes`, `Session`, `SessionInv`, `SessionFront`, `SessionClientSteps`,
`SessionServerSteps`, `SessionSafety`, `SessionLimits`, `SessionReturn`, `SessionGone`, `SessionExact`,
`SessionExample`, `SessionProgress`, `SessionEvict`, `ResumableServer`, `ResumableClient`). One client, one server and
any number of connections are a state machine. The client issues, cancels and replays calls; connections break at any
point; each side moves to a later connection when it likes; the server caches replies and forgets them by stream offset.
At end of file the server still works off the calls it has received; a cached reply that it would have to send then
aborts the program. `SessionLanes` holds the ordering argument on its own: what the server knows of the calls on a
connection is a prefix of them. `ResumableServer` and `ResumableClient` hold the classes with their loops, proved
against the functions that the state machine uses.

At-most-once execution is **not** a property of the code as it stands. The server forgets a call when it evicts its
cached reply, and an evicted call can still reach the server again; it then looks fresh and runs again. An evicted call
*returns* if reading on reaches a copy of it on the server's connection, if a later connection carries one, or if it is
outstanding and its answer is not among the bytes that the client processes before it can replay it. A step is called
**benign** if no call that it evicts returns. Only replies and the reading of fresh calls can fail this.

- In every run of benign steps a call is executed at most once, and once more for each time the service dropped it
  (`AtMostOnce`; a call that is rejected or has garbage arguments is dropped), each call has one answer (`OneAnswer`),
  and what the server knows is a prefix (`KnownIsPrefix`).
- The condition is exact, call by call (`ReturnsExact`, `BenignExact`): an evicted call that returns is executed again
  in some continuation, which is constructed (`SessionReturn`), and one that does not return is never executed again
  (`SessionGone`). A continuation may consist of any steps, except that those before the server leaves its connection
  are benign: on that connection another harmful eviction could clear away what keeps the server from reaching the call.
- `SessionExample` has a failing step for every way in which an evicted call can return, each in a state that a benign
  run reaches and for every send buffer: unread on the same connection, with the transport up or at end of file; unread
  on a later one; still to be replayed on a connection that the client has not joined, or on a new one; and behind a
  dropped call that comes again. `BoundAttained` shows that drops do lead to further executions.
- No session is ever stuck (`NeverStuck`): from every state that benign steps reach, there is a way on to one in which
  every outstanding call has returned, without cancelling or dropping any.
- What a reply evicts is also said directly by the acknowledged offset, the send buffer and the bytes sent
  (`ReplyExact`), and acknowledgements take effect in every run (`AcknowledgedIsEvicted`).
- `DrainExact` says of any table and connection, reachable or not, exactly when reading the connection to its end
  executes something twice.

Assumed of the environment: a transaction id is not reused while an earlier call with it is still present anywhere; the
server learns of acknowledged bytes only after the client processed them; a client leaves a connection only after it
processed the bytes that evictions on it relied on, which is what the send-buffer argument in the source relies on.

**Duplicate suppression over datagrams** (`UnreliableServer`): the bounded reply cache against the events of the run.

**The buddy allocator** (`Bitvec`, `Bbfree`, `BuddyMaps`, `BuddyCount`, `BuddyBytes`, `Bbuddy`): bit vectors, one free
map for each level, and the allocator over them, specified by which bytes are free. The marks are a normal form of the
free space, so allocation and freeing undo each other, the order of freeing does not matter, and the bytes add up.

**XDR** (`Xdr`, `XdrWire`, `XdrCanonical`, `XdrTraverse`): encoding and decoding as functions on types, the wire form
that they agree with exactly, when decoding loses nothing, and the one traversal that does both, in place.

**Record marking** (`RecordMarking`, `AxprtPipe`): framing, partial writes, reads of any size and the delivery loop. The
assertion after delivery that less than a packet is buffered is too strong; `AssertionExact` says exactly when it holds.

**Retransmission queues** (`Backoff`): intrusive lists with pointers to pointers, what each callback does to each entry,
and the whole life of an entry from start to timeout, driven by the wakeups that the queues ask for.

**Weighted server choice** (`SrvShuffle`), **base 32 and base 64 text** (`Armor`, `ArmorCodec`, `Armor32`, `Armor64`),
**integer parsing** (`ParseInt`) and **the circular buffer** (`Cbuf`). The circular buffer is a window on the stream of
all bytes ever put into it, so bytes that were removed can be put back even if others were added since.

Time, random draws, what `read` and `write` accept, and the order that `qsort` gives to equal records are parameters.

Notes on the source, where the model follows the code:

- The delivery loop goes on after a break is received, as long as whole records follow.
- Words have 32 bits, where `ffs` finds the least significant bit. For 64-bit words `ffs64` finds the most significant
  bit of a word half; the allocator only needs some set bit.
- A request for zero bytes is refused. With a smallest block of one byte, a request for one byte that has to split a
  larger block counts an unsigned level below zero and trips the level assertion; `Alloc` requires that this is not so.
- The first loop of `settotsize` never runs, because sizes are kept in whole largest blocks; the model leaves it out.
- `strtoi64` takes `0x` without a digit behind it for a number without digits and reports the start of the string as its
  end, where the C library would report the character after the zero.

## Model

| member | source | states |
|---|---|---|
| SessionSafety.AtMostOnce | sfslite-1.2/arpc/asrv.C:602-668 | In every run of the client, the server and any number of connections that break and resume at any point, if every step is benign, a call is handed to the service at most once, and once more for each time the service dropped it; without drops no call runs twice. |
| SessionExact.BenignExact | sfslite-1.2/arpc/asrv.C:602-647 | That condition is exact: from every state that meets the invariant, an allowed step is benign if and only if no call that it evicts is executed again in any continuation (of allowed steps, benign as long as the server stays on its connection). |
| SessionExact.ReturnsExact | sfslite-1.2/arpc/asrv.C:602-647 | The same call by call: an evicted call is executed again in some continuation if and only if reading on reaches a copy of it, a later connection carries one, or the client may replay it. |
| SessionExact.HarmIsReached | sfslite-1.2/arpc/asrv.C:602-647 | A step that is not benign, taken after any run of benign steps, leads to a reachable state in which a call was executed too often. |
| SessionReturn.Repeats | sfslite-1.2/arpc/asrv.C:602-668 | Constructs the continuation for a call that returns, from any state in order: the server reads on, or moves to the connection that carries the call, or the client cancels its other calls and replays it. |
| SessionReturn.ReadOn | sfslite-1.2/arpc/asrv.C:602-622 | A forgotten call within reach on the connection of the server is executed again when it reads on, by benign steps only. |
| SessionReturn.WalkTo | sfslite-1.2/arpc/aclnt.C:645-678 | A client can finish what it has to on each connection, go on to the next and replay an unpromised call where the server hears it. |
| SessionGone.PathGone | sfslite-1.2/arpc/asrv.C:602-668 | A forgotten call that does not return is never executed again, whatever follows, as long as nothing harmful is evicted before the server leaves its connection. |
| SessionGone.StepGone | sfslite-1.2/arpc/asrv.C:602-668 | Each of the thirteen kinds of step leaves such a call where nobody will read it. |
| SessionExact.EvictedReturns | sfslite-1.2/arpc/asrv.C:638-646 | A call that a reply evicts returns if and only if it is within reach on the server's connection, or it is outstanding with no answer promised and the client has yet to come to that connection, which is up. |
| SessionFront.FrontEnds | sfslite-1.2/arpc/axprt_pipe.C:182-183 | If the server cannot read its connection to the end, what stops it is a call whose reply it would have to send again. |
| SessionSafety.LiveReadIsBenign | sfslite-1.2/arpc/asrv.C:602-622 | Reading a call is benign whenever the stream has carried something or still can, unless the service dropped that call before. |
| SessionSafety.OthersAreBenign | sfslite-1.2/arpc/asrv.C:649-668 | Every other kind of step is benign, resuming on a later connection among them. |
| SessionExample.ReplyBreaksPromise | sfslite-1.2/arpc/asrv.C:624-647 | Concrete failures, in states that benign runs reach, for every packet size, positive send buffer and replies longer than it: a reply evicts a call whose replay is unread on the connection, or is still to come on a connection the client has not joined; a continuation executes the call again. |
| SessionExample.LateReplyBreaksPromise | sfslite-1.2/arpc/asrv.C:624-647 | The same for a reply that is recorded at end of file and evicts a call that is next on the connection. |
| SessionExample.ReadBreaksPromise | sfslite-1.2/arpc/asrv.C:602-622 | The same for a fresh call, read from a connection that broke before anything was sent on it, that evicts an unsent reply whose call a later connection carries, or the client will replay. |
| SessionExample.DropBreaksPromise | sfslite-1.2/arpc/asrv.C:517-547 | The same for a dropped call that comes again and evicts, as a fresh call, the reply of a later call whose replay is next. |
| SessionExample.BoundAttained | sfslite-1.2/arpc/asrv.C:517-547 | A benign run in which a call that was dropped once is executed twice, so the bound cannot be lower. |
| SessionSafety.OneAnswer | sfslite-1.2/arpc/asrv.C:517-547 | In every such run each reply on any connection, first or resent, carries the bytes first computed for its call, and what a call returned to the client is those bytes, now and later. |
| SessionSafety.KnownIsPrefix | sfslite-1.2/arpc/asrv.C:602-668 | In every such run the outstanding calls that the server knows or has dropped, or whose answer is sure to be processed, form a prefix of the outstanding calls in issue order; likewise, without the last kind, for the calls that it can still read on its connection. |
| SessionProgress.NeverStuck | sfslite-1.2/arpc/aclnt.C:645-678 | From every state that benign steps reach there is a way on, of allowed steps that neither start nor give up a call, to a state in which no call is outstanding and every call that was has returned what was first computed for it. |
| SessionProgress.CanReturn | sfslite-1.2/arpc/aclnt.C:645-678 | One outstanding call can be brought to return: the client finishes its connections and replays on a new one, the server moves there, reads up to the call and answers it, or sends the cached reply again; no other call is lost on the way. |
| SessionProgress.DeliverReturns | sfslite-1.2/arpc/aclnt.C:565-593 | An answer to an outstanding call makes that call return with its bytes, which are those first computed; any other message changes no call. |
| SessionProgress.StepCarries | sfslite-1.2/arpc/aclnt.C:565-593 | No step other than a cancellation, a drop or a new call takes a call off the outstanding ones without a result, and what a call returned is final. |
| SessionEvict.AcknowledgedIsEvicted | sfslite-1.2/arpc/asrv.C:634-646 | In every run: after the client acknowledged n bytes, a reply on the same connection, when no answer of an earlier connection is cached, leaves no cached answer that ends before byte n. |
| SessionEvict.AckedStays | sfslite-1.2/arpc/aclnt.C:585-589 | In every run an acknowledged offset only grows while the server stays on its connection. |
| SessionEvict.ClientSilent | sfslite-1.2/arpc/aclnt.C:186-194 | In every run, from its end of file until it resumes the client puts no call on any connection. |
| SessionEvict.ServerDeaf | sfslite-1.2/arpc/asrv.C:533-536 | In every run, from its end of file until it resumes the server sends no byte and receives no call. |
| SessionSafety.StepKeeps | sfslite-1.2/arpc/asrv.C:602-668 | Every benign step of any of the thirteen kinds keeps the whole invariant. |
| SessionSafety.RunInv | sfslite-1.2/arpc/asrv.C:602-668 | The invariant holds in every state of a benign run, from any initial packet and send-buffer size. |
| SessionLimits.DrainExact | sfslite-1.2/arpc/asrv.C:602-622 | From a state with any table, reading the connection to its end executes a call twice exactly if some unread call was executed already and is either unknown or a leftover behind an unknown one. |
| SessionInv.InitOk | sfslite-1.2/arpc/asrv.C:670-679 | The state before any call meets the invariant. |
| SessionLanes.ClientResumeKeeps | sfslite-1.2/arpc/aclnt.C:645-678 | Replaying every outstanding call in order on a new connection keeps the ordering argument: prefixes stay known, earlier calls come first, unread connections carry what both an earlier and a later one carry. |
| SessionLanes.RejoinKeeps | sfslite-1.2/arpc/aclnt.C:645-678 | So does moving the client to a connection on which the server does not hear it. |
| SessionLanes.ServerResumeKeeps | sfslite-1.2/arpc/asrv.C:649-668 | Moving to a later connection and making every cached reply a leftover keeps the ordering argument. |
| SessionLanes.ServedKeeps | sfslite-1.2/arpc/asrv.C:602-647 | So does any step of the server that reads a known call, or after which it can read less of its connection. |
| SessionLanes.FreshIsNew | sfslite-1.2/arpc/asrv.C:602-622 | An unread call that the server neither knows nor has dropped was never executed. |
| SessionLanes.FreshNeedsNoLeftover | sfslite-1.2/arpc/asrv.C:602-611 | When such a call is next on a live stream, no leftover is on any connection or outstanding any more. |
| SessionLanes.ReadNewKeeps | sfslite-1.2/arpc/asrv.C:602-622 | Entering the next unread call keeps the ordering argument. |
| SessionLanes.EvictKeeps | sfslite-1.2/arpc/asrv.C:624-647 | Forgetting calls that are on no connection, and outstanding only with a promised answer, keeps the ordering argument. |
| SessionClientSteps.DeliverKeeps | sfslite-1.2/arpc/aclnt.C:565-593 | Processing the next reply keeps the session invariant, and takes exactly the call that the reply answers off the outstanding calls, if it is there. |
| SessionClientSteps.FoundIsOwner | sfslite-1.2/arpc/aclnt.C:565-593 | The outstanding call found by the transaction id of a reply is the call that the reply answers, or none if that call is not outstanding. |
| SessionClientSteps.ClientResumeKeeps | sfslite-1.2/arpc/aclnt.C:645-678 | Resuming the client on a new connection keeps the session invariant. |
| SessionServerSteps.ReadCallKeeps | sfslite-1.2/arpc/asrv.C:602-622 | Reading a call, whether it is fresh, in progress or answered already, keeps the session invariant when the step is benign. |
| SessionServerSteps.KeyFindsCall | sfslite-1.2/arpc/asrv.C:493-500 | A table entry under the key of a live call is the entry of that call, so the server knows the call exactly if it knows the key. |
| SessionServerSteps.ReplyKeeps | sfslite-1.2/arpc/asrv.C:624-647 | Recording, sending and evicting for a reply keeps the session invariant when the step is benign. |
| SessionServerSteps.ServerResumeKeeps | sfslite-1.2/arpc/asrv.C:649-668 | Resuming the server on a later connection keeps the session invariant. |
| SessionServerSteps.DropKeeps | sfslite-1.2/arpc/asrv.C:517-547 | Dropping any call in progress keeps the session invariant. |
| ResumableServer.ReplyKeeps | sfslite-1.2/arpc/asrv.C:624-647 | After a reply the queue is still ordered by offset, leftovers in front, and matches the table. |
| ResumableServer.ResumeKeeps | sfslite-1.2/arpc/asrv.C:649-668 | After a resume the table and queue still match and every queued reply is a leftover. |
| ResumableServer.FrontIsLeftovers | sfslite-1.2/arpc/asrv.C:606-611 | Deleting from the front while the offset is zero deletes all leftovers and nothing else. |
| ResumableServer.FrontIsAcknowledged | sfslite-1.2/arpc/asrv.C:638-646 | Deleting from the front while the offset is nonzero and received deletes exactly the received replies, and none while a leftover is queued. |
| ResumableServer.AsrvResumable.EvictLeftovers | sfslite-1.2/arpc/asrv.C:606-611 | The loop leaves the state that forgetting the set of leftovers gives. |
| ResumableServer.AsrvResumable.EvictAcknowledged | sfslite-1.2/arpc/asrv.C:638-646 | The loop leaves the state that forgetting the set of received replies gives; ReplyExact says which those are. |
| ResumableServer.AsrvResumable.IsReplay | sfslite-1.2/arpc/asrv.C:602-622 | True exactly if the key is in the table. A cached reply is sent again: four bytes and its own are counted, if it fits, and it goes to the end of the queue with the place where it now ends. A fresh call is entered, and exactly the answered calls with offset zero are gone. |
| ResumableServer.AsrvResumable.SendReply | sfslite-1.2/arpc/asrv.C:624-647 | The new state is that of the session model, and Replied: the reply is cached with the place where it ends, and an answered call is gone exactly if no answer of an earlier connection is cached and its offset is below the acknowledged one, or with the send buffer added below the bytes sent. |
| ResumableServer.ReplyExact | sfslite-1.2/arpc/asrv.C:624-647 | What a reply evicts, said with the acknowledged offset, the size of the send buffer and the bytes sent, and no other function of the model: both directions, for every call of the table. |
| ResumableServer.AsrvResumable.SendNothing | sfslite-1.2/arpc/asrv.C:517-547 | A call answered without a cached reply leaves the table, and nothing else changes. |
| ResumableServer.AsrvResumable.ResumeOn | sfslite-1.2/arpc/asrv.C:649-668 | The new transport, every offset of the table zero, and nothing else changed. |
| ResumableClient.AclntResumable.GenXid | sfslite-1.2/arpc/aclnt.C:91-99 | The first random draw that is nonzero and unused on the transport, and no earlier draw was. |
| ResumableClient.AclntResumable.Enter | sfslite-1.2/arpc/aclnt.C:58-63 | A new call is last in the list and found by its transaction id. |
| ResumableClient.AclntResumable.Remove | sfslite-1.2/arpc/aclnt.C:65-73 | A finished or cancelled call leaves the list and the table; the table entry of another call under the same id stays. |
| ResumableClient.AclntResumable.Dispatch | sfslite-1.2/arpc/aclnt.C:565-593 | A reply finishes the call with its transaction id, which may be one of another client of the transport, or nothing; exactly that table entry goes. |
| ResumableClient.AclntResumable.Start | sfslite-1.2/arpc/aclnt.C:244-259 | All outstanding calls are added to the table; the assertion that their ids are unused holds. |
| ResumableClient.AclntResumable.Stop | sfslite-1.2/arpc/aclnt.C:261-277 | All outstanding calls are taken out of the table and no other; the assertion that each is registered holds. |
| ResumableClient.AclntResumable.ResumeOn | sfslite-1.2/arpc/aclnt.C:645-678 | The table entries move to the new transport, the old one keeps the rest, and the messages of the outstanding calls are sent in issue order, all of them once. |
| ResumableClient.ExtendThenRemove | sfslite-1.2/arpc/aclnt.C:244-277 | Starting and then stopping gives the transaction table back as it was. |
| ResumableClient.LookupIsFindXid | sfslite-1.2/arpc/aclnt.C:565-593 | The table lookup gives the outstanding call that a search by transaction id gives in the session model. |
| UnreliableServer.RecentReplyIsResent | sfslite-1.2/arpc/asrv.C:552-584 | In every run, a duplicate of a call is answered with the stored bytes and not executed while fewer than the cache size of further replies were cached since. |
| UnreliableServer.EffectExact | sfslite-1.2/arpc/asrv.C:552-566 | In every run, from the events alone: a call is ignored exactly if the service is working on it, a reply is sent again exactly if it is one of the last cached ones, and a call is executed exactly if neither is so. |
| UnreliableServer.WorkingIsActive | sfslite-1.2/arpc/asrv.C:517-566 | In every run the calls in progress are those that arrived when none of the last replies was for them and have been neither answered nor dropped since. |
| UnreliableServer.StoredIsRecent | sfslite-1.2/arpc/asrv.C:569-584 | In every run a reply is stored exactly if it is one of the last ones given, up to the cache size. |
| UnreliableServer.ExecutionsBalance | sfslite-1.2/arpc/asrv.C:552-584 | In every run, each execution of a call is still in progress or ended in exactly one reply or one drop. |
| UnreliableServer.KeptDistinct | sfslite-1.2/arpc/asrv.C:552-584 | In every run the cached replies have different keys, none of them in progress. |
| UnreliableServer.KeptAfterReply | sfslite-1.2/arpc/asrv.C:569-584 | One more reply keeps the last replies up to the cache size, oldest out first. |
| UnreliableServer.AsrvUnreliable.Dispatch | sfslite-1.2/arpc/asrv.C:552-566 | A received call is ignored, answered from the cache or executed exactly as EffectExact says of the events so far. |
| UnreliableServer.AsrvUnreliable.SendReply | sfslite-1.2/arpc/asrv.C:569-584 | The table and the queue hold exactly the calls in progress and the last cached replies, after the eviction loop; the event is added to the run. |
| UnreliableServer.AsrvUnreliable.SendUncached | sfslite-1.2/arpc/asrv.C:517-547 | A call answered without caching leaves the table and the queue is unchanged; the event is added to the run. |
| BuddyMaps.Canonical | sfslite-1.2/async/bbuddy.C:174-229 | Two states of the free maps with the same free units are equal: the maps are a normal form of the free space. |
| BuddyMaps.MarkedIsMaximal | sfslite-1.2/async/bbuddy.C:174-229 | A block is marked free exactly if it is wholly free and the block of twice its size around it is not. |
| BuddyMaps.FreeIsMarked | sfslite-1.2/async/bbuddy.C:183-195 | A wholly free block lies in a marked block of its own level or above, so the upward search finds it. |
| BuddyMaps.GiveUndoesTake | sfslite-1.2/async/bbuddy.C:174-229 | Freeing the block just allocated gives back the maps as they were, whatever was split. |
| BuddyMaps.AnyOrder | sfslite-1.2/async/bbuddy.C:205-229 | Freeing a set of blocks gives the same maps in every order. |
| BuddyMaps.CheckExact | sfslite-1.2/async/bbuddy.C:231-257 | The check of the allocator passes exactly if no marked block lies inside another and no two buddies are both marked. |
| BuddyMaps.SplitStep | sfslite-1.2/async/bbuddy.C:196-200 | One halving keeps the maps well formed and the free units the same but for the block in hand. |
| BuddyMaps.JoinStep | sfslite-1.2/async/bbuddy.C:218-228 | One joining step frees the doubled block instead, with the same free units in the end. |
| BuddyCount.WeightIsCount | sfslite-1.2/async/bbuddy.C:174-229 | The marks weighted by their block sizes count the free units. |
| BuddyCount.PartitionAdds | sfslite-1.2/async/bbuddy.C:174-229 | Free units and units of the blocks handed out add up to the whole space. |
| BuddyCount.InInterval | sfslite-1.2/async/bbuddy.C:174-229 | The units of a block are exactly an aligned interval of its size. |
| BuddyCount.LogOfPow | sfslite-1.2/async/msb.h:59-86 | Rounding a power of two up to a power of two changes nothing. |
| Bbuddy.Allocator.constructor | sfslite-1.2/async/bbuddy.C:127-135 | A new allocator, of any smallest block size from one byte on, has exactly the bytes below its size free, which is the given one cut to whole largest blocks. |
| Bbuddy.Allocator.Accounts | sfslite-1.2/async/bbuddy.C:174-257 | In every state the space left is the total less the blocks handed out, equals the weighted marks, and the check of the allocator passes. |
| Bbuddy.Allocator.Alloc | sfslite-1.2/async/bbuddy.C:174-203 | Fails exactly if the request is empty, larger than the largest block, or nowhere at a multiple of its size are all bytes of the least block that holds the request free, and then changes nothing; otherwise exactly such bytes are taken, inside the space, apart from all blocks handed out, and from the first part of a smallest marked block. Required is exactly that the level counted down while splitting does not pass zero, where the program aborts. |
| Bbuddy.Allocator.LevelIsLeast | sfslite-1.2/async/bbuddy.C:176-181 | The level of a request is the least one whose blocks hold it, and no other level is; it is above the top exactly if the request is larger than the largest block. |
| BuddyBytes.RoomIs | sfslite-1.2/async/bbuddy.C:174-203 | A block of a level is free somewhere exactly if its number of bytes is free in a row at a multiple of that number. |
| BuddyBytes.TakenBytes | sfslite-1.2/async/bbuddy.C:174-203 | Taking a block out of the maps takes exactly the bytes from its offset to its end, all free before. |
| BuddyBytes.GivenBytes | sfslite-1.2/async/bbuddy.C:205-229 | Giving a block back frees exactly those bytes, none free before. |
| BuddyBytes.UpIs | sfslite-1.2/async/bbuddy.C:213-214 | The position of a block is its offset divided by its size. |
| Bbuddy.Allocator.Dealloc | sfslite-1.2/async/bbuddy.C:205-229 | Exactly the bytes of the least block that holds the length become free, joined with their buddies as far as those are free, and the space left grows by them. |
| Bbuddy.Allocator.Release | sfslite-1.2/async/bbuddy.C:205-229 | The same for any taken block, with the alignment assertion of the program discharged. |
| Bbuddy.Allocator.Search | sfslite-1.2/async/bbuddy.C:183-195 | The lowest level from the requested one on that has a mark and a marked block of it, or none exactly if there is no mark from there on. |
| Bbuddy.Allocator.Split | sfslite-1.2/async/bbuddy.C:196-200 | Halving down from any level leaves exactly the lowest block of the requested level taken. |
| Bbuddy.Allocator.Join | sfslite-1.2/async/bbuddy.C:218-228 | Joining up to any level leaves the maps well formed with exactly the given block freed. |
| Bbuddy.Allocator.SetTotSize | sfslite-1.2/async/bbuddy.C:137-167 | The new size is the given one cut to whole largest blocks, and exactly the bytes from the old size up to it become free; what is handed out stays so. |
| Bbuddy.Allocator.FreeTail | sfslite-1.2/async/bbuddy.C:160-163 | The loop over the new largest blocks frees all of them and nothing else. |
| Bbfree.FreeMap.FindBit | sfslite-1.2/async/bbuddy.C:91-107 | None exactly if nothing is marked; otherwise the lowest marked position of the word under the hint, or of all if that word is zero, and the hint follows it. |
| Bbfree.FreeMap.Init | sfslite-1.2/async/bbuddy.C:54-60 | A resized map keeps its marks, and positions beyond its size are clear. |
| Bbfree.FreeMap.SetBit | sfslite-1.2/async/bbuddy.C:64-75 | Exactly one more position is marked. |
| Bbfree.FreeMap.ClrBit | sfslite-1.2/async/bbuddy.C:76-85 | Exactly one position fewer is marked. |
| Bitvec.Bits.RangeSet | sfslite-1.2/async/bitvec.h:82-95 | All bits of the range are set and no other changes, for ranges within a word and across words. |
| Bitvec.Bits.RangeClr | sfslite-1.2/async/bitvec.h:97-110 | All bits of the range are cleared and no other changes. |
| Bitvec.Bits.SetBit | sfslite-1.2/async/bitvec.h:137-143 | One bit changes and no other. |
| Bitvec.RangeBits | sfslite-1.2/async/bitvec.h:82-110 | Masking the first and last word of a range changes exactly the bits of the range. |
| Xdr.RoundTrip | sfslite-1.2/arpc/rpctypes.h:376-461 | For every type built from words, hypers, booleans, opaques, strings, arrays, bounded vectors and optionals, and every value without a null string, decoding the encoding followed by anything gives the value and what followed. |
| Xdr.DecodeSound | sfslite-1.2/arpc/rpctypes.h:376-461 | Whatever bytes decode to is a value of the type within its bounds, and exactly as many bytes are consumed as its encoding has. |
| XdrCanonical.Reencodes | sfslite-1.2/arpc/rpctypes.h:376-461 | Encoding what bytes decode to gives back exactly the bytes consumed if and only if all padding in them is zero and all flags of booleans and optionals are 0 or 1. |
| XdrWire.EncodeExact | sfslite-1.2/arpc/rpctypes.h:376-461 | The encoding is the one string of bytes that the wire form of RFC 4506 allows: big-endian words and long words, two's complement, counts, flags 0 and 1, and zeros up to the next multiple of four; said as a relation without the encoder. |
| XdrWire.DecodeExact | sfslite-1.2/arpc/rpctypes.h:376-461 | Decoding yields a value and leaves a rest exactly if what comes before the rest is a wire form of the value in which padding may hold anything and flags any word but zero. |
| XdrWire.WireUnique | sfslite-1.2/arpc/rpctypes.h:376-461 | In the strict form only one string of bytes stands for a value. |
| XdrWire.EncodedAs | sfslite-1.2/arpc/xdrmisc.h:135-178 | Opaque bytes take the next multiple of four of them, counted bytes four more; the four bytes of a word and the eight of a long word, in base 256, are the number. |
| Xdr.EncodeWhole | sfslite-1.2/arpc/xdrmisc.h:168-188 | Every encoding is a whole number of four-byte units. |
| Xdr.IntRoundTrip | sfslite-1.2/arpc/xdrmisc.h:135-149 | Four bytes, most significant first, give the number back. |
| Xdr.HyperRoundTrip | sfslite-1.2/arpc/rpctypes.h:440-449 | The high and the low word give the 64-bit number back. |
| Xdr.PaddedRoundTrip | sfslite-1.2/arpc/xdrmisc.h:168-188 | Padded bytes give the bytes back and leave what follows the padding; PaddedExact says how much that is. |
| XdrWire.PaddedExact | sfslite-1.2/arpc/xdrmisc.h:168-178 | The padded form is the bytes and zeros up to the next multiple of four, and nothing else is. |
| XdrTraverse.Stream.Traverse | sfslite-1.2/arpc/rpctypes.h:376-461 | One traversal both encodes and decodes: encoding appends the encoding of the object and fails exactly on a null string; decoding gives what the bytes say whatever the object held, and fails exactly if they say nothing. |
| XdrTraverse.Stream.Vector | sfslite-1.2/arpc/rpctypes.h:389-416 | The same for vectors: too long a count fails, prior elements are overwritten in place, missing ones pushed and surplus ones dropped. |
| XdrTraverse.Stream.InPlace | sfslite-1.2/arpc/rpctypes.h:376-387 | The same for the element loop of arrays and vectors. |
| XdrTraverse.Stream.Optional | sfslite-1.2/arpc/rpctypes.h:418-428 | The same for optionals: a nonzero flag allocates, a zero flag clears. |
| XdrTraverse.Stream.Blob | sfslite-1.2/arpc/xdrmisc.h:203-269 | The same for opaques, bounded bytes and bounded strings; a string with a zero byte is refused. |
| XdrTraverse.Copy | sfslite-1.2/arpc/xdrmisc.h:419-439 | Encoding a value and decoding it into any target of the type gives the value, and fails exactly on a null string. |
| RecordMarking.PrefixDelivers | sfslite-1.2/arpc/axprt_pipe.C:259-301 | However a prefix of a sent stream is parsed, the records delivered are the first records sent, and the rest is part of the next one. |
| RecordMarking.AllDelivered | sfslite-1.2/arpc/axprt_pipe.C:259-301 | The whole stream yields all the records sent and leaves nothing. |
| RecordMarking.FrameIs | sfslite-1.2/arpc/axprt_pipe.C:190-192 | A record on the wire is four bytes, which read in base 256 are its length with the highest bit set, and its own bytes. |
| RecordMarking.LookExact | sfslite-1.2/arpc/axprt_pipe.C:260-301 | Which bytes are a break, a bad header, a record of length n, or not yet enough, from the number that the first four make. |
| RecordMarking.TakenFrames | sfslite-1.2/arpc/axprt_pipe.C:280-301 | What is taken out of framed records followed by anything is the records and then what is taken out of the rest. |
| RecordMarking.PrefixParses | sfslite-1.2/arpc/axprt_pipe.C:259-301 | Every prefix of a sent stream, cut anywhere, has a parse. |
| RecordMarking.AssertionExact | sfslite-1.2/arpc/axprt_pipe.C:349-376 | The assertion that less than a packet is left over holds for every way of cutting the stream exactly if every record is at least four bytes shorter than the packet size. |
| RecordMarking.AlmostAll | sfslite-1.2/arpc/axprt_pipe.C:349-376 | A record that is not four bytes shorter can leave a packet size or more: the cut that breaks the assertion. |
| AxprtPipe.Pipe.Send | sfslite-1.2/arpc/axprt_pipe.C:176-215 | The record is framed behind what waits; of that, exactly the bytes that the immediate write and the final output take are written, in order, and the rest waits. The record is counted. Too long a record, or a write that fails at once or in the final output, ends the transport, and exactly those do. |
| AxprtPipe.Pipe.Output | sfslite-1.2/arpc/axprt_pipe.C:217-240 | Writes of any length, any number of them, take exactly the first bytes that wait; exactly a failed write ends the transport. |
| AxprtPipe.Pipe.GetPkt | sfslite-1.2/arpc/axprt_pipe.C:259-301 | One step delivers the record at the cursor, waits for more bytes, or ends the transport, stopping at a bad header and going on after a break. |
| AxprtPipe.Pipe.Deliver | sfslite-1.2/arpc/axprt_pipe.C:349-364 | The loop delivers exactly the records that can be taken out of the buffer, in order, and the transport ends exactly if a break or a bad header is met. |
| AxprtPipe.Pipe.Input | sfslite-1.2/arpc/axprt_pipe.C:309-376 | Of buffered and new bytes together, exactly the records that can be taken out are delivered, and the transport ends exactly if a break or a bad header is met; otherwise the rest is buffered. It also ends on end of file and on a read error; a read that would block changes nothing. |
| AxprtPipe.Pipe.ReceivesWhatWasSent | sfslite-1.2/arpc/axprt_pipe.C:309-376 | If the bytes read are a prefix of what a peer framed, a prefix of its records is delivered, all once all bytes are in, and the buffer has room to go on. |
| AxprtPipe.SentIsWellFormed | sfslite-1.2/arpc/axprt_pipe.C:259-301 | No prefix of a sent stream is malformed, so the transport never ends on one. |
| Backoff.Tmoq.TimeoutNotEarly | sfslite-1.2/async/backoff.h:75-99 | An entry that timed out, and was not put back by keeptrying, was transmitted once at each level in order and its timeout was called once, not before minto times (2 to the maxsend, less one) after its start. |
| Backoff.Lifetime | sfslite-1.2/async/backoff.h:61-107 | An entry that is started, not removed, and called back at each level at or after its deadline there, among any other callbacks, has been transmitted once at each level in order and timed out once, and in no earlier state than minto times (2 to the maxsend, less one) after its start. |
| Backoff.LifeFits | sfslite-1.2/async/backoff.h:75-99 | After any callbacks at any times, an entry at level q has been transmitted once at each level up to q, never timed out before the last, and waits there neither too short nor too long. |
| Backoff.Tmoq.Run | sfslite-1.2/async/backoff.h:61-122 | In the queues, driven by the event loop that runs the wakeups which are pending and due, while other entries are started and removed: an entry that is started has been transmitted once at each level and timed out once if the loop runs at or after each deadline. |
| Backoff.Tmoq.RunDue | sfslite-1.2/async/backoff.h:61-73 | Running every pending wakeup that is due moves on every entry whose deadline has come, because each waits in a queue with a wakeup in time. |
| Backoff.Tmoq.Live | sfslite-1.2/async/backoff.h:61-107 | In the queues themselves, whatever else waits in them, an entry that is started and then called back any number of times becomes what that life says. |
| Backoff.Tmoq.Serve | sfslite-1.2/async/backoff.h:61-65 | One callback does to every entry that waits or has timed out what one step of its life says. |
| Backoff.ElapsedIs | sfslite-1.2/async/backoff.h:90-99 | The delay at level q is minto times 2 to the q, and the waiting times of the levels up to q add up to minto times (2 to the q+1, less one). |
| Backoff.Tmoq.Callback | sfslite-1.2/async/backoff.h:61-65 | Exactly the entries whose deadline has come leave the queue, in order; each is transmitted at the next level with a new deadline, or its timeout is called; no other entry changes; and every nonempty queue has a wakeup no later than its front deadline. |
| Backoff.Tmoq.RunQ | sfslite-1.2/async/backoff.h:75-88 | Due entries leave the front in order for the end of the next queue with one more transmission, or time out at the last; exactly they were due, and the rest is as it was. |
| Backoff.Tmoq.Turn | sfslite-1.2/async/backoff.h:75-88 | One due entry moves on, no other changes, and all queues stay well linked. |
| Backoff.Tmoq.Insert | sfslite-1.2/async/backoff.h:90-99 | The entry is last in its queue, with the deadline of the queue, and the queue has a wakeup in time. |
| Backoff.Tmoq.SchedQ | sfslite-1.2/async/backoff.h:67-73 | A callback at the front deadline, unless one is pending or nothing waits. |
| Backoff.Tmoq.Start | sfslite-1.2/async/backoff.h:107-107 | A started entry is last in queue zero, transmitted once, with the first deadline. |
| Backoff.Tmoq.KeepTrying | sfslite-1.2/async/backoff.h:109-112 | An entry past the last level is last in the last queue again, and transmitted. |
| Backoff.Tmoq.Remove | sfslite-1.2/async/backoff.h:114-122 | A waiting entry is unlinked wherever it is in its queue; an entry past the last level, or never started, is left alone; wakeups stay in time. |
| Backoff.UnlinkAgain | sfslite-1.2/async/backoff.h:114-122 | Removing an entry again that is in the list no more leaves the list whole if and only if its old neighbours are still neighbours, or have both left too. |
| SrvShuffle.Randomize | sfslite-1.2/async/dnsparse.C:555-608 | Each place in turn is filled by a draw between the like records that are left, by weight or evenly, with one draw for every record of a group but its last. Whatever the draws, the result is a permutation of the records by increasing priority, those with a weight before those without. |
| SrvShuffle.Proportional | sfslite-1.2/async/dnsparse.C:593-602 | Of the draws from one to the total weight, exactly as many as its weight select a record. |
| SrvShuffle.Shares | sfslite-1.2/async/dnsparse.C:576-597 | The draws themselves are shared out: of the first n times the total weight, exactly n times its weight fall on a record, and for any other number of draws at most one weight more; with no weights, the same with one for each record. |
| SrvShuffle.FallsExact | sfslite-1.2/async/dnsparse.C:576-597 | A draw falls on the record in whose part of the running sum of weights its remainder by the total lies. |
| SrvShuffle.CmpSorts | sfslite-1.2/async/dnsparse.C:545-553 | The comparison is a consistent order, and sorting by it is by increasing priority and, within one, decreasing weight. |
| SrvShuffle.ChosenOnce | sfslite-1.2/async/dnsparse.C:593-602 | A draw selects one record only. |
| SrvShuffle.TurnedOnce | sfslite-1.2/async/dnsparse.C:576-603 | A draw determines the next arrangement. |
| SrvShuffle.Search | sfslite-1.2/async/dnsparse.C:594-597 | The search stops inside the group, at the record that the draw selects. |
| SrvShuffle.WeightFits | sfslite-1.2/async/dnsparse.C:588-591 | The 32-bit total of the weights does not overflow for up to 65535 records. |
| SrvShuffle.WeightedGroup | sfslite-1.2/async/dnsparse.C:593-603 | A weighted group is filled front to back by weighted choices from what is left, and the assertion on the remaining weight holds. |
| SrvShuffle.UniformGroup | sfslite-1.2/async/dnsparse.C:576-585 | A group without weights is filled front to back by even choices from what is left. |
| SrvShuffle.Extent | sfslite-1.2/async/dnsparse.C:572-591 | The end of a group and its total weight or size. |
| Armor32.RoundTrip | sfslite-1.2/async/armor.C:63-186 | The text of a byte string of any length, read up to the first character that is not of the alphabet, gives the byte string back. |
| Armor32.DigitsAre | sfslite-1.2/async/armor.C:63-120 | The digits are in range, their number is the formula, and read in base 32 they are the number of the bytes in base 256 times the padding factor. |
| Armor32.EncodedIs | sfslite-1.2/async/armor.C:63-120 | In closed form: as few digits of five bits as hold the bits of the bytes, with the same number followed by zero bits. |
| Armor32.DecodedIs | sfslite-1.2/async/armor.C:131-186 | Any digits, also such as no bytes are written as, decode to as many bytes as they fill, with the number that is left when the bits beyond are shifted out. |
| Armor32.TextIs | sfslite-1.2/async/armor.C:26-31 | The characters of the text are those that the written-out alphabet has at the places of the digits. |
| Armor32.LengthExact | sfslite-1.2/async/armor.C:53-53 | A length is accepted exactly if some number of bytes has a text of that length. |
| Armor32.ToText | sfslite-1.2/async/armor.C:63-120 | The loop and the last group write that text, and the length assertion holds. |
| Armor32.FromText | sfslite-1.2/async/armor.C:131-186 | Fails exactly on a length that no byte string has; otherwise the bytes of the digits, and the length assertion holds. |
| Armor64.RoundTrip | sfslite-1.2/async/armor.C:218-324 | For the three variants, filled up or not, the text of a byte string of any length followed by a terminator gives the byte string back, and its length is found. |
| Armor64.DigitsAre | sfslite-1.2/async/armor.C:218-257 | The digits are in range, their number is the formula, and read in base 64 they are the number of the bytes in base 256 times the padding factor. |
| Armor64.EncodedIs | sfslite-1.2/async/armor.C:218-257 | In closed form: as few digits of six bits as hold the bits of the bytes, with the same number followed by zero bits. |
| Armor64.DecodedIs | sfslite-1.2/async/armor.C:265-296 | Any digits but one alone in a last group decode to as many bytes as they fill, with the number that is left when the bits beyond are shifted out. |
| Armor64.TextIs | sfslite-1.2/async/armor.C:188-263 | The characters of the text are those of the written-out alphabet at the places of the digits, and then signs of equality up to a multiple of four in the two variants that fill up. |
| Armor64.ExtentIs | sfslite-1.2/async/armor.C:298-313 | Behind the letters, up to two signs of equality belong to the text, and none in the third variant. |
| Armor64.ToText | sfslite-1.2/async/armor.C:218-263 | The loop, the last group and the fill characters write that text; the unpadded variant cuts them off. |
| Armor64.FromText | sfslite-1.2/async/armor.C:265-324 | A length that does not fill up groups fails where the variant fills them up; otherwise the bytes of the digits, within the buffer size. |
| Armor64.LastGroup | sfslite-1.2/async/armor.C:285-292 | The last group is read as far as its characters are digits. |
| Armor64.TextLen64 | sfslite-1.2/async/armor.C:298-313 | The digits and up to two fill characters are counted. |
| Armor.TextLen | sfslite-1.2/async/armor.C:122-129 | The number of characters of the alphabet that the text starts with. |
| Armor.CharsBack | sfslite-1.2/async/armor.C:26-53 | Digits written as characters of an alphabet are read back as the same digits. |
| Armor.LettersAre | sfslite-1.2/async/armor.C:26-51 | A character stands for n exactly if it is the n-th of the written-out alphabet, for all four alphabets. |
| Armor.SpanIs | sfslite-1.2/async/armor.C:122-129 | The text spans exactly the letters of the written-out alphabet that it starts with. |
| Armor.DigitsWritten | sfslite-1.2/async/armor.C:26-53 | A text in an alphabet is what its digits are written as. |
| ArmorCodec.UndigitsDigits | sfslite-1.2/async/armor.C:63-186 | If every group of up to full size comes back from its digits, so does every byte string. |
| ArmorCodec.Encode | sfslite-1.2/async/armor.C:72-84 | Full groups and then the last one give the text of the whole string. |
| ArmorCodec.Decode | sfslite-1.2/async/armor.C:148-183 | Full groups of digits and then the last one give the bytes of the whole text. |
| ParseInt.Strtoi64 | sfslite-1.2/async/convertint.C:65-163 | For every terminated string and base, the result is the signed value of the digits held to the 64-bit range and the end is just past the last digit, or the start if there is none; all arithmetic stays in 64 bits. |
| ParseInt.ReadsBack | sfslite-1.2/async/convertint.C:65-163 | Every 64-bit integer comes back from its numeral in every base from 2 to 36, and the end is where the numeral ends. |
| ParseInt.ReadsText | sfslite-1.2/async/convertint.C:65-163 | Every text in its parts: blanks, a sign, a hexadecimal prefix where it may stand, digits in small or capital letters, and a rest. The value is the number of the digits in the base, which is the given one, 16 after a prefix, 8 after a zero and else 10, with the sign and held to the range; the digits end where they end. |
| ParseInt.HasText | sfslite-1.2/async/convertint.C:65-163 | Every terminated string has such parts. |
| ParseInt.DigitExact | sfslite-1.2/async/convertint.C:127-132 | A character has a digit value exactly if it is at that place of the small or the capital digits, written out. |
| ParseInt.Cutoffs | sfslite-1.2/async/convertint.C:117-126 | The cutoff and the last allowed digit are the limit divided by the base and the remainder, whether the machine division truncates or goes down. |
| ParseInt.CutoffExact | sfslite-1.2/async/convertint.C:138-157 | The test against the cutoff is true exactly if one more digit passes the limit. |
| ParseInt.Accumulate | sfslite-1.2/async/convertint.C:136-158 | One digit keeps the number or holds it to the end of the range once and for all, without leaving 64 bits. |
| ParseInt.Header | sfslite-1.2/async/convertint.C:78-97 | White space, a sign, a hexadecimal prefix and the default base are read as specified. |
| Cbuf.CircularBuffer.Put | sfslite-1.2/async/cbuf.C:41-68 | Bytes read into the free parts and added follow what was there, for every capacity and position. |
| Cbuf.CircularBuffer.InIov | sfslite-1.2/async/cbuf.C:41-56 | The parts are exactly the free space in the order in which the stream takes it, and as many as are not empty are counted. |
| Cbuf.CircularBuffer.AddBytes | sfslite-1.2/async/cbuf.C:58-68 | The bytes at the first free places become the end of the contents; all older bytes that are not overwritten stay where they were. |
| Cbuf.CircularBuffer.OutIov | sfslite-1.2/async/cbuf.C:87-102 | The parts one after the other are exactly the contents. |
| Cbuf.CircularBuffer.Find | sfslite-1.2/async/cbuf.C:70-85 | The first place of the byte in the contents, or -1 exactly if it is not there. |
| Cbuf.CircularBuffer.CopyOut | sfslite-1.2/async/cbuf.C:104-118 | The first bytes of the contents are copied and removed; the rest of the target is untouched. |
| Cbuf.CircularBuffer.At | sfslite-1.2/async/cbuf.h:59-60 | The n-th byte of the contents. |
| Cbuf.CircularBuffer.Size | sfslite-1.2/async/cbuf.h:57-58 | The number of bytes of the contents. |
| Cbuf.CircularBuffer.Space | sfslite-1.2/async/cbuf.h:49-50 | The capacity less the number of bytes of the contents. |
| Cbuf.CircularBuffer.RemBytes | sfslite-1.2/async/cbuf.h:73-79 | The first bytes of the contents are gone and no byte of the stream moves. |
| Cbuf.CircularBuffer.UnremBytes | sfslite-1.2/async/cbuf.h:80-86 | The bytes of the stream before the contents are there again, the last ones removed, whatever was added since. |
| Cbuf.CircularBuffer.ReadAddPutBack | sfslite-1.2/async/cbuf.h:73-86 | Removing bytes, adding others and putting the removed ones back is the same as only adding. |

## Left out

- SessionSafety.AtMostOnce: for runs of benign steps; it is false of other runs, and BenignExact says exactly which steps make it so.
- ResumableClient.AclntResumable.Dispatch: replies that decode; error replies, retries and source-address checks are not modelled, and of another client only the table entry is.
- ResumableClient.AclntResumable.ResumeOn: the resume of a client as one step; calls issued between its two halves are not modelled.
- Bbuddy.Allocator.SetTotSize: offsets and sizes are unbounded; overflow of 32-bit shifts for huge blocks is not modelled.
- Bitvec.Bits.SetSize: new words hold arbitrary bits, as fresh memory does; words have 32 bits.
- Backoff.Tmoq.Callback: an entry that its own timeout or transmission starts, removes or keeps trying from within the callback is not modelled.
- Backoff.Tmoq.Remove: an entry with a queue number must be waiting; one that was removed before keeps its number, and removing it again is UnlinkAgain.
- SrvShuffle.Randomize: up to 65535 records, which is what a message can count.
- Armor32.FromText: an explicit length must not reach past the characters of the alphabet, where the source shifts negative numbers.
- Armor64.FromText: the length is found and not given, and an unpadded text must not end in one single digit, where the source reads past the terminator.
- ParseInt.Strtoi64: characters are ASCII, as in the C locale.
- Cbuf.CircularBuffer.Put: reading into the free parts and adding is one step.
- `cbuf::resize` and `cbuf::clear`: the empty flag they set does not have the meaning it has elsewhere.
- XDR unions and `bigint`, and the XDR free operation.
- Datagram and descriptor-passing transports, `ungetpkt`, `sendbreak` and the poll loop.
- Authentication, tracing, statistics, call cancellation by timers and the RPC compiler.
- The event loop, DNS message parsing and resolution, hash tables, trees, strings, `suio` and the callback templates.
