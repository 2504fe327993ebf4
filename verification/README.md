# A verified model of the RDMA examples' runtime

The repository sets up RDMA connections over datagrams and sockets and moves data with the
verbs API. This project models its stateful cores in Dafny and proves what they keep.

| files | what they model |
|---|---|
| `Bytes.dfy`, `MsgCodec.dfy`, `MultiMsgs.dfy` | the MultiMsg batch format: a 33-byte header inside the growable string that also holds the payload, and a raw pointer to it |
| `SRpcSpec.dfy`, `SRpc.dfy` | the bootstrap RPC: client call and receive, server event loop, channels with a reused receive buffer |
| `RpcSafety.dfy`, `RpcRefinement.dfy` | the RPC as a protocol of many clients and one server over a network that loses, repeats, reorders and corrupts; the code's loops as runs of it |
| `Proto.dfy` | the packed request and reply structs of the control plane, byte for byte |
| `Registry.dfy`, `ControlPlane.dfy`, `ConnectManager.dfy` | the daemon's registry of queue pairs, its handlers behind the protocol, and the client's driver |
| `Truthfulness.dfy`, `CreateTruthfulness.dfy` | what the client's delete and create calls can tell their caller about the registry |
| `Chains.dfy`, `RecvRing.dfy` | the receive ring: cut, posted, spliced and rotated while the NIC consumes it and iterators hold parts of it |
| `SendProgress.dfy` | wrapping 16-bit watermarks packed into work request ids |
| `HistogramSpec.dfy`, `Histogram.dfy` | the latency histogram against the list of samples it summarises |
| `Doorbell.dfy` | the doorbell chain of send requests |
| `Handshake.dfy` | the hexadecimal text handshake |

How the objects and the functions divide the work: an object of the source is a class whose
methods change fields and arrays in place; each method is tied by its postcondition to a
function on values (`Append` to `AppendSpec`, `RunOneEventLoop` to `Drain`, `ReceiveReply` to
`Settle`, `RcHandler` to `CreateSpec`, and so on), and the results about runs are lemmas about
those functions.

## What the environment is assumed to do

- Bytes are numbers below 256; multi-byte fields of packed structs are little-endian, as on the
  hosts the code is written for. Only the gid conversion is proved for both byte orders.
- `std::string` keeps its storage while it has room, and at least doubles it when it moves.
  `SRpc::call` needs the doubling for parameters of fewer than 8 bytes: it reserves
  `34 + |parameter|` bytes for a message of `42 + |parameter|`, so only the doubling keeps the
  header pointer good for the second append. After that append the pointer may be stale, and
  nothing uses it any more.
- A datagram arrives whole, cut to the receive buffer; the network is the set of datagrams
  sent. A corrupted datagram is one that does not decode over what the buffer held; nobody
  forges a message that does. A timeout is an event of the receiver. Driver results and the key
  that `generate_key` draws (anything but zero) are inputs.
- The NIC consumes receive entries and completes send requests in posting order.
- The NIC brings a queue pair to ready to receive only from init.
- Doubles are reals; `None` stands for NaN. The square root is not modelled, its argument is.

## Where the code does not do what one would expect

The model follows the code; each point has a lemma that says exactly when the expectation holds.

- `sanity_check` adds up sizes in 16 bits and so accepts headers whose entries leave the buffer
  (`AcceptedButOutOfBounds`, `AcceptedEntriesInBoundsIff`).
- After a timeout the next call reuses the checksum, so it may accept the abandoned call's
  reply (`NextAnswerIff`, `RetryMayGetTheOldAnswer`).
- `call` aborts on parameters of 4055 to 4062 bytes instead of refusing them
  (`CallOutcomeBySize`).
- `delete_remote_rc` reports success when no reply comes, and when the late reply to another
  request under the same checksum is taken for its own (`DeleteTruthfulIff`,
  `LateCreateReplyMisleads`).
- A request delivered twice may be answered by its second execution: a delete that worked is
  reported as an error, and a create that worked leaves an entry whose key nobody knows
  (`DeleteReportTellsIff`, `CreateReportTellsIff`; the runs are `DuplicateDeleteReportsError`
  and `DuplicateCreateLeavesEntry`).
- `cc_rc` may return the late reply to another request as its own success
  (`KeyAlwaysOwnIff`).
- A create with receive entries whose channel is not registered fails after its queue pair is
  registered and leaves it there (`MsgFailureLeavesStoreIff`).
- The server's receive buffer is reused: a datagram leaves the previous request in place
  exactly if it is a prefix of the buffer, such as an empty one, and that request is then
  executed again (`PrefixReplays`).
- `whether_create == 0`, documented as "only query", is rejected; 2 to 255 query
  (`QueryOnlyIff`).
- A queue pair whose second transition fails stays ready to receive, and every later connect of
  it fails (`ConnectStates`).
- Iterators cleared out of polling order repost entries that another iterator still holds
  (`ClearRepostsOwnIff`).
- Iterators share one array of completions: one that polled earlier shows the messages of a
  later one (`ShowsOwnIff`, `SecondPollHidesFirst`).
- A `post_recvs` that fails leaves the ring cut. In `clear` that loses the entries not taken
  (`ClearConservesIff`); posting the same stretch again keeps the cut and posts the entries
  taken the first time twice (`RetryPostsTwiceIff`), and clearing another iterator loses that
  one's entries (`PlacesAfterFailure`).
- `freeze_done` at the last request links past the array (`FreezeDoneRestoresIff`).
- `Percentile` is not a number on an empty histogram (`PercentileNaNIff`).
- `out_signaled` counts signaled requests whose post failed (`OutSignaledCounts`,
  `FailedPostIsCounted`).
- `poll_rc_comp` decodes an unset completion when the poll fails, and moves the watermark to
  whatever it finds (`PendingRefinesCount`, `FailedPollMovesMark`).
- `create_from` may accept strings that are shorter than a header, and may read past them
  (`CheckMeans`, `ShortMessageAccepted`, `ShortMessageReadPast`).

## Model

| member | source | states |
|---|---|---|
| MsgCodec.AcceptedEntriesInBoundsIff | thirdparty/rlib/bootstrap/multi_msg.hh:71-86 | for an accepted header of a buffer below 64 KiB, all entries lie in the buffer iff the unwrapped sum of header and sizes is below 2^16 |
| MsgCodec.AcceptedEntriesDisjoint | thirdparty/rlib/bootstrap/multi_msg.hh:71-86 | the entries of an accepted, unwrapped header do not overlap and come after the header |
| MsgCodec.AcceptedButOutOfBounds | thirdparty/rlib/bootstrap/multi_msg.hh:77-85 | a 4096-byte buffer with sizes 60000 and 6000 is accepted although reading entry 0 leaves it |
| MsgCodec.EncodingAccepted | thirdparty/rlib/bootstrap/multi_msg.hh:115-127 | every buffer that appends can build is accepted, whatever bytes follow it |
| MsgCodec.FetchOfEncode | thirdparty/rlib/bootstrap/multi_msg.hh:165-170 | round trip: entry i of a built buffer, with any trailing bytes, is the i-th message; past the count there is none |
| MsgCodec.EncodingTiles | thirdparty/rlib/bootstrap/multi_msg.hh:56-68 | entries tile the buffer from byte 33 to its end |
| MsgCodec.EncodingLayout | thirdparty/rlib/bootstrap/multi_msg.hh:56-68 | byte 0 is the count, and the four header bytes of entry i are the offset and size at which message i stands |
| MultiMsgs.AppendOne | thirdparty/rlib/bootstrap/multi_msg.hh:56-68 | in place: the header becomes that of the longer list and the payload is untouched, or nothing changes when eight entries are taken |
| MultiMsgs.SanityCheck | thirdparty/rlib/bootstrap/multi_msg.hh:71-86 | the 16-bit loop accepts a string with a full header iff there are at most 8 entries, every offset is 33 plus the sum of sizes mod 2^16, and the final value mod 2^16 is at most the size |
| MultiMsgs.CheckMeans | thirdparty/rlib/bootstrap/multi_msg.hh:71-86 | for a string of any length with its terminating zero: accepted iff it holds the fields of its announced entries and these are as a padded header needs them; read past iff it does not hold them, announces at most 8 entries and every offset that it does hold is right |
| MultiMsgs.ShortMessageReadPast | thirdparty/rlib/bootstrap/multi_msg.hh:71-86 | one byte announcing an entry is read past; a second byte 34 is rejected, by the terminating zero |
| MultiMsgs.ShortMessageAccepted | thirdparty/rlib/bootstrap/multi_msg.hh:115-127 | five bytes are accepted although their one entry is not in them |
| MultiMsgs.ShortMessageLies | thirdparty/rlib/bootstrap/multi_msg.hh:115-127 | every accepted string shorter than a header announces a first entry that is not in it |
| MultiMsgs.AcceptsOfPrefix | thirdparty/rlib/bootstrap/multi_msg.hh:115-127 | acceptance depends on the header bytes alone |
| MultiMsgs.ByteString.Append | thirdparty/rlib/bootstrap/multi_msg.hh:154 | the string grows by the message, in its storage if there is room and in new storage otherwise |
| MultiMsgs.MultiMsg.constructor | thirdparty/rlib/bootstrap/multi_msg.hh:102-105 | a new message is the empty list, its header pointer is good, and the reservation is clamped to [33, MAXSZ] |
| MultiMsgs.MultiMsg.CreateExact | thirdparty/rlib/bootstrap/multi_msg.hh:133-137 | refuses iff payload plus header exceed MAXSZ; otherwise reserves room for exactly that payload |
| MultiMsgs.MultiMsg.CreateFrom | thirdparty/rlib/bootstrap/multi_msg.hh:115-127 | a received buffer of any size is refused, taken over or read past, as the check of its bytes and terminating zero says; never read past when it holds a full header |
| MultiMsgs.MultiMsg.Append | thirdparty/rlib/bootstrap/multi_msg.hh:148-156 | takes the message iff it fits MAXSZ and an entry is free; the buffer is then exactly the encoding of the longer list, a refusal changes nothing, and the header pointer stays good iff the old storage had room |
| MultiMsgs.MultiMsg.QueryOne | thirdparty/rlib/bootstrap/multi_msg.hh:165-170 | the copy of an entry, its absence, or a read outside the buffer |
| MultiMsgs.MultiMsg.QueryAppended | thirdparty/rlib/bootstrap/multi_msg.hh:165-170 | what was appended i-th is what query_one(i) returns |
| MultiMsgs.AppendRunKeeps | thirdparty/rlib/bootstrap/multi_msg.hh:148-156 | any run of appends only extends the list and never exceeds MAXSZ or eight entries |
| MultiMsgs.TakesIff | thirdparty/rlib/bootstrap/multi_msg.hh:148-156 | an append is taken iff the longer list's encoding stays within the maximum and has at most eight entries |
| MultiMsgs.AppendAll | thirdparty/rlib/bootstrap/multi_msg.hh:148-156 | appending a whole list to an object: the raw header pointer is good at the end iff the final size is within the storage held at the start; then the storage is the same and the messages are those of the run |
| MultiMsgs.BuildDefault | thirdparty/rlib/bootstrap/multi_msg.hh:102-105 | an object with the default reservation keeps its header pointer good through every sequence of appends |
| MultiMsgs.BuildExact | thirdparty/rlib/bootstrap/multi_msg.hh:133-137 | an object of create_exact(sz) keeps it good as long as the payload taken stays within sz |
| MultiMsgs.IterateAll | thirdparty/rlib/bootstrap/multi_msg_iter.hh:38-64 | the documented iterator loop terminates and yields the appended messages in order |
| SRpcSpec.CallOutcomeBySize | thirdparty/rlib/bootstrap/srpc.hh:57-69 | a call is sent iff the parameter has at most 4054 bytes, and aborts for 4055 to 4062 |
| SRpcSpec.RequestRoundTrip | thirdparty/rlib/bootstrap/srpc.hh:184-196 | the server decodes id, checksum and parameter of a call over any stale contents of its buffer |
| SRpcSpec.RequestLayout | thirdparty/rlib/bootstrap/srpc.hh:57-69 | the bytes of a call: two entries, the id at 33, the checksum at 34, the parameter from 42 |
| SRpcSpec.ReplyRoundTrip | thirdparty/rlib/bootstrap/srpc.hh:84-88 | the client decodes status, checksum, heartbeat mark and body of a reply unchanged |
| SRpcSpec.ReplyLayout | thirdparty/rlib/bootstrap/srpc.hh:218-244 | the bytes of a reply: status at 33, checksum at 34, heartbeat mark at 42, the body from 43 |
| SRpcSpec.AnswerRoundTrip | thirdparty/rlib/bootstrap/srpc.hh:218-244 | what a client reads from the reply to any handler result, exceptions and over-long answers included |
| SRpcSpec.AnswerWholeOrNop | thirdparty/rlib/bootstrap/srpc.hh:221-244 | answers of at most 4053 bytes arrive whole, longer ones (below 4 GiB) as Nop, never truncated |
| SRpcSpec.ReplyEchoes | thirdparty/rlib/bootstrap/srpc.hh:183-244 | on every path the reply fits a datagram, decodes at the client, and carries the request's checksum, or 0 if the request is undecodable |
| SRpcSpec.ServedStatus | thirdparty/rlib/bootstrap/srpc.hh:181-244 | which status goes into the reply: fatal for what does not decode, Ok with the handler's whole answer (marked for a heartbeat), Nop for an exception, an over-long answer or a missing parameter |
| SRpcSpec.ServedState | thirdparty/rlib/bootstrap/srpc.hh:213-231 | the server's state moves as the one handler called moves it, and not at all if none is |
| SRpcSpec.ReactOkIff | thirdparty/rlib/bootstrap/srpc.hh:82-114 | a receive succeeds iff the reply is an Ok under the current checksum (or a heartbeat's, when waiting for one); the counter moves iff a normal reply carries that checksum; Nop is the error Not ready, and every other outcome an error or a wild read |
| SRpcSpec.ServeCrashesIff | thirdparty/rlib/bootstrap/srpc.hh:150-153 | an iteration fails to reply iff the id is unregistered or an accepted header points outside the buffer |
| SRpcSpec.SettlesOnFirstNormal | thirdparty/rlib/bootstrap/srpc.hh:75-94 | a normal receive skips heartbeat replies only and settles on the first event that is not one, or times out at the end of the inbox |
| SRpcSpec.OneReplyPerDatagram | thirdparty/rlib/bootstrap/srpc.hh:177-248 | the loop answers each message it takes up once, in order, to its sender, and its count is the number of replies |
| SRpcEndpoints.ReceiveInto | thirdparty/rlib/bootstrap/channel.hh:57-94 | a received datagram overwrites the start of the buffer and leaves the rest stale |
| SRpcEndpoints.SendChannel.Recv | thirdparty/rlib/bootstrap/channel.hh:188-196 | each receive uses a fresh zeroed 4096-byte buffer |
| SRpcEndpoints.SRpc.Call | thirdparty/rlib/bootstrap/srpc.hh:57-69 | sends exactly the encoded request under the current checksum, refuses or aborts, and never moves the counter |
| SRpcEndpoints.SRpc.ReactTo | thirdparty/rlib/bootstrap/srpc.hh:82-114 | the reaction to one buffer: retry, or a result and the counter, advanced only by a matching non-dummy reply |
| SRpcEndpoints.SRpc.ReceiveReply | thirdparty/rlib/bootstrap/srpc.hh:75-119 | result, counter and consumed events are those of Settle; terminates on any finite inbox |
| SRpcEndpoints.RecvChannel.Start | thirdparty/rlib/bootstrap/channel.hh:296-304 | does not overwrite a current message; otherwise fills the reused buffer from the next event |
| SRpcEndpoints.RecvChannel.Next | thirdparty/rlib/bootstrap/channel.hh:315-318 | drops the current message and tries to receive another |
| SRpcEndpoints.SRpcHandler.RegisterHandler | thirdparty/rlib/bootstrap/srpc.hh:141-148 | the first registration of an id wins, the built-in heartbeat included, so the heartbeat stays built in |
| SRpcEndpoints.SRpcHandler.AnswerMessage | thirdparty/rlib/bootstrap/srpc.hh:221-231 | the framed reply to a handler's answer |
| SRpcEndpoints.SRpcHandler.ServeCurrent | thirdparty/rlib/bootstrap/srpc.hh:181-244 | one loop body on the live buffer: the reply and the new server state, or undefined behaviour |
| SRpcEndpoints.SRpcHandler.RunOneEventLoop | thirdparty/rlib/bootstrap/srpc.hh:177-248 | the whole loop ends in exactly the state, replies and count of Drain |
| RpcSafety.AcceptedRepliesAreAnswers | thirdparty/rlib/bootstrap/srpc.hh:99-108 | over every run: the k-th accepted reply of a client is under checksum k, and carries the handler's result for a non-heartbeat call this client sent under it; so no checksum is accepted twice and no fatal reply at all |
| RpcSafety.SoleCallIsAnswered | thirdparty/rlib/bootstrap/srpc.hh:99-108 | with one non-heartbeat call per checksum, the accepted reply answers exactly that call |
| RpcSafety.OnlyOutstandingAnswered | thirdparty/rlib/bootstrap/srpc.hh:75-119 | the next accepted reply answers a call sent under the current checksum to a registered handler |
| RpcSafety.OutstandingCanBeAnswered | thirdparty/rlib/bootstrap/srpc.hh:75-119 | any such call can be the one answered, in two steps, with the result of executing it now |
| RpcSafety.NextAnswerIff | thirdparty/rlib/bootstrap/srpc.hh:75-119 | in every reachable world the calls that may be answered next are exactly those outstanding under the current checksum |
| RpcSafety.RetryMayGetTheOldAnswer | thirdparty/rlib/bootstrap/srpc.hh:99-100 | two calls without a reply in between: either may be the one answered |
| RpcSafety.LateReplyRun | thirdparty/rlib/bootstrap/srpc.hh:99-108 | a run in which the reply accepted after a second call is that to the first, with what it leaves at the server |
| RpcSafety.SecondReplyRun | thirdparty/rlib/bootstrap/srpc.hh:99-108 | a run in which one call is executed twice and its second answer is accepted |
| RpcSafety.StepKeepsInv | thirdparty/rlib/bootstrap/srpc.hh:75-248 | the invariant linking counters, requests, executions and replies survives every step, corrupted datagrams to either side and failed receives included |
| RpcSafety.ServeSentRequest | thirdparty/rlib/bootstrap/srpc.hh:213-231 | serving a delivered request executes exactly that call, however stale the buffer |
| RpcSafety.PrefixReplays | thirdparty/rlib/bootstrap/channel.hh:57-94 | after a request was served, a datagram leaves the reused buffer as it is iff it is a prefix of it, and then the same call is executed again, for the new sender |
| RpcSafety.HandlersInvariant | thirdparty/rlib/bootstrap/srpc.hh:150-153 | what every handler keeps holds of the server's state throughout every run |
| RpcRefinement.EventLoopIsRun | thirdparty/rlib/bootstrap/srpc.hh:177-248 | one event loop over sent and corrupted datagrams is a run of serve and garbage steps: same server state and buffer, the replies in flight are exactly those from before and the loop's, and what is left in the inbox is what follows the first quiet moment |
| RpcRefinement.ReceiveReplyIsRun | thirdparty/rlib/bootstrap/srpc.hh:75-119 | one receive_reply over replies, corrupted datagrams, timeouts and receive errors is a run: same counter, which moves iff the last thing consumed is a reply that is then the one new acceptance |
| Proto.ReplyStructRoundTrip | thirdparty/rlib/utils/marshal.hh:60-73 | every RCReply is read back from its 69 bytes, whatever follows them |
| Proto.DeleteRoundTrip | thirdparty/rlib/bootstrap/proto.hh:89-94 | a delete request of at most 63 name bytes is read back with its key and its name up to the first zero: whole iff the name has no zero; the same struct is read as a query |
| Proto.CreateRoundTrip | thirdparty/rlib/bootstrap/proto.hh:58-75 | the same for the name, flag and NIC of a create request |
| Proto.CreateStructLayout | thirdparty/rlib/lib.hh:147-160 | the create request that cc_rc sends: padded name, flag, zero, NIC, the client's configuration, the attributes of its own queue pair, which are read back, and 4096 |
| Proto.AttrLayout | thirdparty/rlib/qps/mod.hh:45-52 | each attribute of a queue pair is a little-endian number at its packed offset |
| Proto.ReplyStructLayout | thirdparty/rlib/bootstrap/proto.hh:77-81 | status, attributes and key stand at bytes 0, 1 and 61 of a reply |
| Proto.DeleteStructLayout | thirdparty/rlib/bootstrap/proto.hh:89-94 | the padded name, then the key at byte 64 |
| Registry.ConnectSucceedsIff | thirdparty/rlib/qps/rc.hh:144-172 | connect succeeds iff the queue pair exists and ends ready to send |
| Registry.ConnectStates | thirdparty/rlib/qps/rc.hh:144-172 | the state after every outcome: init if the first transition fails, ready to receive if the second does, and from there no later connect succeeds |
| Registry.CreateCases | thirdparty/rlib/rctrl.hh:199-256 | a create request either leaves the registry alone or adds one connected queue pair, with its key in the reply |
| Registry.CreateAnswers | thirdparty/rlib/qps/rc_recv_manager.hh:53-120 | store and reply of both kinds of create in every case: an insertion answers with the new queue pair's own attributes and key (or throws), 2 to 255 with the registered attributes and key 0 or NotFound, a creation that failed throws, all else is WrongArg |
| Registry.OtherAnswers | thirdparty/rlib/rctrl.hh:121-177 | a query answers the registered attributes with key 0 or NotFound; a delete is Ok iff name and key match and WrongArg otherwise; what cannot be parsed is WrongArg and changes nothing |
| Registry.FailedConnectLeavesStore | thirdparty/rlib/rctrl.hh:238-242 | a failed connect leaves the registry as it was |
| Registry.RegisteredReachedRTS | thirdparty/rlib/rctrl.hh:199-256 | after any sequence of requests every registered queue pair is ready to send and has a nonzero key |
| Registry.OnlyItsKeyRemoves | thirdparty/rlib/utils/abs_factory.hh:73-86 | an entry is removed exactly by a delete with its own key and changed by nothing |
| Registry.EntryPersists | thirdparty/rlib/utils/abs_factory.hh:46-54 | an entry stays as inserted through any requests without that delete |
| Registry.ReplyKeyIffInserts | thirdparty/rlib/rctrl.hh:165-177 | a reply carries a nonzero key iff its request inserted an entry under that key and did not throw afterwards |
| Registry.MsgFailureLeavesStoreIff | thirdparty/rlib/qps/rc_recv_manager.hh:66-108 | a create with receive entries that hands out no key leaves the registry as it was iff its channel is registered or the create itself failed |
| Registry.CreateThenDeleteRestores | thirdparty/rlib/rctrl.hh:121-140 | a create, any requests about other names, and the delete with the returned key leave what those requests alone would leave; any other key is answered WrongArg and changes nothing |
| Registry.RepeatedCreate | thirdparty/rlib/rctrl.hh:229-235 | a repeated create, however late, changes nothing and hands out no key |
| Registry.QueryOnlyIff | thirdparty/rlib/rctrl.hh:207-214 | a create request for a registered name is answered with its attributes and key 0, creating nothing, iff whether_create is at least 2 |
| Registry.RC.Connect | thirdparty/rlib/qps/rc.hh:144-172 | the state a queue pair ends in for every driver outcome; refused if it could not be created |
| Registry.Factory.Reg | thirdparty/rlib/utils/abs_factory.hh:46-54 | binds a fresh name to the object and key, and refuses a taken one |
| Registry.Factory.Dereg | thirdparty/rlib/utils/abs_factory.hh:73-86 | removes the entry iff name and key match; nothing for a missing name and a wrong key alike |
| Registry.RCtrl.RcHandler | thirdparty/rlib/rctrl.hh:199-256 | register first, connect, take out again on failure: the registry's view and the reply are those of CreateSpec |
| Registry.RecvManager.MsgRcHandler | thirdparty/rlib/qps/rc_recv_manager.hh:53-120 | the same through the RecvManager, which throws after the registration when the channel is missing: those of CreateMsgSpec |
| Registry.RCtrl.DeleteRc | thirdparty/rlib/rctrl.hh:121-140 | the registry's view and the reply are those of DeleteSpec |
| ControlPlane.RegistryGoodInEveryRun | thirdparty/rlib/rctrl.hh:38-59 | with all handlers that RCtrl and RecvManager register behind the protocol, every registered queue pair is ready to send in every run |
| ControlPlane.HandlersById | thirdparty/rlib/rctrl.hh:38-59 | the handlers are those of ids 0 to 6; 2 to 5 take the registry where create, create with receive entries, delete and query take it, and answer with its reply in bytes that read back; the others leave it alone |
| ControlPlane.AcceptedReplyIs | thirdparty/rlib/rctrl.hh:38-59 | an accepted reply that reads as an RCReply is, byte for byte, the registry's answer to a request of this client under that checksum |
| ControlPlane.AcceptedKeyMeansInserted | thirdparty/rlib/rctrl.hh:199-256 | a client that accepts a reply with a key had its own create request insert a connected queue pair under that key, whatever the network did |
| Truthfulness.DeleteTruthfulIff | thirdparty/rlib/lib.hh:105-121 | in every run the success that delete_remote_rc reports means that the daemon removed the entry, iff a reply came and no other request the client sent under the same checksum is a create (of either kind) or query that is not refused outright or a delete of something else |
| Truthfulness.TimeoutRun | thirdparty/rlib/lib.hh:120-121 | a delete that times out is reported as a success while the registry is untouched |
| Truthfulness.LateCreateReplyMisleads | thirdparty/rlib/lib.hh:103-111 | a create that timed out, then a delete whose request is lost: the create's late Ok is reported as the delete's success, and the entry is still there |
| Truthfulness.SoleDeleteReport | thirdparty/rlib/rctrl.hh:121-140 | with no other call outstanding the accepted reply parses; success iff the execution it answers removed the entry, "wrong arg" iff that one found none, and either way the entry is gone |
| Truthfulness.DeleteReportTellsIff | thirdparty/rlib/lib.hh:105-121 | with no other call outstanding the report says, in every run, whether the client's request removed the entry, iff that request is executed at most once (or has key zero) |
| CreateTruthfulness.SoleCreateReport | thirdparty/rlib/rctrl.hh:199-256 | with no other call outstanding an accepted Ok to a create carries the key under which that execution inserted the queue pair; any other reply means that this execution inserted none |
| CreateTruthfulness.CreateReportTellsIff | thirdparty/rlib/lib.hh:166-198 | with no other call outstanding the report says, in every run, whether the client's request inserted a queue pair, iff that request is executed at most once |
| CreateTruthfulness.KeyAlwaysOwnIff | thirdparty/rlib/lib.hh:166-198 | in every run the key that cc_rc returns is that of the queue pair its own request made, iff no other request sent under the same checksum can be answered Ok with such a key: another create for a nonzero key, a query or a delete for zero |
| Truthfulness.DuplicateDeleteReportsError | thirdparty/rlib/rctrl.hh:126-130 | a delete delivered twice: the client is told "wrong arg" although its own request removed the entry |
| CreateTruthfulness.DuplicateCreateLeavesEntry | thirdparty/rlib/rctrl.hh:229-235 | a create delivered twice: the client is told that it failed, although its request inserted the queue pair, which stays under a key it never sees |
| ConnectManagers.ConnectManager.WaitReady | thirdparty/rlib/lib.hh:71-86 | sends one heartbeat per try under one checksum; gives up after exactly `retry` of them and as many timeouts; the first other event settles it, ready on an Ok reply and an error otherwise; a send that fails, and only that, stops it before |
| ConnectManagers.HeartbeatReadyIff | thirdparty/rlib/lib.hh:71-86 | wait_ready is settled as ready iff the first event that is not a timeout is a reply marked as a heartbeat's or an Ok under the current checksum |
| ConnectManagers.ConnectManager.DeleteRemoteRc | thirdparty/rlib/lib.hh:88-122 | refuses a long name unsent; fails unsent iff the socket refuses the request; else one request goes out, events are consumed up to the one that settles it, and the result is that of DeleteResult |
| ConnectManagers.ConnectManager.CcRc | thirdparty/rlib/lib.hh:135-199 | refused unsent for a long name, failed unsent iff the socket refuses the request; once it is out, success with this key iff the reply says Ok and the local connect succeeds, each other reply has its error, and the local queue pair is touched on an Ok only |
| ConnectManagers.ReportsByStatus | thirdparty/rlib/lib.hh:105-198 | what delete_remote_rc and cc_rc report for each status of a reply, for a reply that cannot be read, and for none |
| RecvRing.CutChain | thirdparty/rlib/qps/mod.hh:171-178 | the chain handed to the NIC is exactly the entries from the header, around the end, up to the first cut: `num` of them on a whole ring; then null |
| RecvRing.RetryPostsTwiceIff | thirdparty/rlib/qps/mod.hh:168-188 | a post that failed, repeated with room: the ring stays cut, the stretch is posted behind the part that was taken, and every entry is posted at most once iff that part was empty |
| RecvRing.Queues.PostRecvs | thirdparty/rlib/qps/mod.hh:168-188 | on any ring, cut or not: on success the links are as found, the header moves by `num` and what is linked of the stretch is posted; on failure the ring is cut, the header stays and a prefix is posted |
| RecvRing.RecvEntries.constructor | thirdparty/rlib/qps/recv_helper.hh:76-99 | the factory loop builds the full ring over the allocated buffers |
| RecvRing.Setup | thirdparty/rlib/qps/rc_recv_manager.hh:100-107 | creating and posting all entries establishes the ring invariant |
| RecvRing.RecvIter.constructor | thirdparty/rlib/qps/recv_iter.hh:39-44 | polling moves completions, in order, to the iterator and the shared array |
| RecvRing.RecvIter.Clear | thirdparty/rlib/qps/recv_iter.hh:72-79 | reposts as many entries as were polled, through the real links; a failure is dropped, and the entries with it |
| RecvRing.ClearConservesIff | thirdparty/rlib/qps/recv_iter.hh:72-79 | after an in-order clear each entry is in exactly one place iff the driver took all of them; otherwise the ring is cut and the entries not taken are nowhere |
| RecvRing.ClearAfterFailure | thirdparty/rlib/qps/recv_iter.hh:72-79 | the clear of another iterator after one that failed posts the beginning of the first one's entries again, up to the old cut, and none of its own |
| RecvRing.PlacesAfterFailure | thirdparty/rlib/qps/mod.hh:168-188 | so its own entries are all lost, and of the first one's those posted by neither are lost and those posted by both are with the NIC twice |
| RecvRing.DrainAll | thirdparty/rlib/qps/recv_iter.hh:60-70 | the loop visits the front of the shared completions, none after a failed poll; they are the iterator's own messages iff those are still shown |
| RecvRing.ForEachMsg | thirdparty/rlib/qps/recv_iter.hh:14-22 | the documented loop, from poll to destructor, sees exactly the oldest completions in order, on any ring, and with room restores a whole one |
| RecvRing.StepKeepsInv | thirdparty/rlib/qps/recv_iter.hh:36-84 | from the header the ring reads polled, completed, posted entries, after every arrival, poll and in-order clear |
| RecvRing.EveryEntryOnce | thirdparty/rlib/qps/recv_iter.hh:36-84 | conservation: in every run that clears iterators holding entries in polling order, each entry is in exactly one place |
| RecvRing.ClearRepostsOwnIff | thirdparty/rlib/qps/recv_iter.hh:72-79 | a clear reposts its own entries iff all earlier iterators hold nothing; otherwise an entry still held is posted |
| RecvRing.ShowsOwnIff | thirdparty/rlib/qps/recv_iter.hh:60-66 | over every in-order run an iterator with messages shows its own iff no iterator that polled later holds any |
| RecvRing.SecondPollHidesFirst | thirdparty/rlib/qps/recv_iter.hh:42-44 | two iterators that polled one message each: the first shows the second's |
| SendProgress.PackBits | thirdparty/rlib/qps/rc.hh:204-207 | bit by bit the packed number is the shifted id, cut to 64 bits, or the mark; the shift back moves every bit by sixteen and the mask keeps the lowest sixteen |
| SendProgress.PackRoundTrip | thirdparty/rlib/qps/rc.hh:249-261 | the mark always survives packing; the caller's id does iff it has 48 bits |
| SendProgress.PendingRefinesCount | thirdparty/rlib/qps/mod.hh:33-38 | over every run pending_reqs is the number of sends after the one whose completion was polled last, iff that number has 16 bits and no failed poll since has left another mark |
| SendProgress.FailedPollMovesMark | thirdparty/rlib/qps/rc.hh:249-261 | one request sent and a poll that fails: pending_reqs is 0 although nothing completed |
| SendProgress.PolledUserId | thirdparty/rlib/qps/rc.hh:249-261 | a completion in the queue belongs to one of the caller's sends, and the id it gives back is the argument of that send iff that argument has 48 bits |
| SendProgress.PolledIdsInOrder | thirdparty/rlib/qps/rc.hh:249-261 | over every run the ids that polls returned, then those still to come, are the low 48 bits of the ids of the signaled sends that were posted, in order: none lost, repeated or invented |
| SendProgress.FlyingAreAttempts | thirdparty/rlib/qps/rc.hh:209-242 | over every run each request on its way, the i-th encoded, holds the id and the signaled flag that the caller gave to its i-th send |
| SendProgress.OutSignaledCounts | thirdparty/rlib/qps/mod.hh:115-121 | over every run out_signaled is, mod 2^32, the signaled requests on their way plus those whose post failed; so it counts the completions to come iff the failures are 0 mod 2^32 |
| SendProgress.FailedPostIsCounted | thirdparty/rlib/qps/mod.hh:115-121 | one signaled request that could not be posted is counted although nothing is on its way |
| SendProgress.RunKeepsInv | thirdparty/rlib/qps/rc.hh:209-261 | marks, counts and the order of requests in flight agree after every run of sends, NIC steps and polls |
| SendProgress.Progress.Pending | thirdparty/rlib/qps/mod.hh:33-38 | the distance from the low to the high watermark around 2^16 |
| SendProgress.RcSender.SendOne | thirdparty/rlib/qps/rc.hh:209-242 | encodes and counts before posting, whether or not the post succeeds |
| SendProgress.RcSender.PollRcComp | thirdparty/rlib/qps/rc.hh:249-261 | whatever is not zero completions moves the low watermark and returns an id: the completion's, or after an error that of the unset word |
| HistogramSpec.AddIsSnoc | nvm_ibverbs/benchmarks/readwrite/histogram.cc:43-55 | updating a summary with a value gives the summary of the longer list |
| HistogramSpec.MergeIsConcat | nvm_ibverbs/benchmarks/readwrite/histogram.cc:57-66 | merging two histograms gives, field by field, the histogram of both lists |
| HistogramSpec.MergeLaws | nvm_ibverbs/benchmarks/readwrite/histogram.cc:57-66 | merge is associative and commutative with the cleared histogram as identity |
| HistogramSpec.DispersionNonNegative | nvm_ibverbs/benchmarks/readwrite/histogram.cc:98-102 | sum of squares times count is at least the squared sum, with equality iff all samples are equal |
| HistogramSpec.BucketsSumToNum | nvm_ibverbs/benchmarks/readwrite/histogram.cc:43-55 | bucket counts add up to the number of samples |
| HistogramSpec.CumCounts | nvm_ibverbs/benchmarks/readwrite/histogram.cc:74-76 | the running sum counts the samples below the limits passed |
| HistogramSpec.ChosenBucketHoldsSamples | nvm_ibverbs/benchmarks/readwrite/histogram.cc:75-83 | the chosen bucket exists and holds a sample, so nothing is divided by zero |
| HistogramSpec.PercentileTotal | nvm_ibverbs/benchmarks/readwrite/histogram.cc:72-91 | with samples and 0 < p <= 100 the result is a number between min and max |
| HistogramSpec.PercentileMonotone | nvm_ibverbs/benchmarks/readwrite/histogram.cc:72-91 | a higher p never gives a smaller value, across buckets and clamps |
| HistogramSpec.PercentileNaNIff | nvm_ibverbs/benchmarks/readwrite/histogram.cc:83 | the result is NaN iff there are no samples or p is zero, and no sample is in the first bucket |
| HistogramSpec.PercentileValue | nvm_ibverbs/benchmarks/readwrite/histogram.cc:78-88 | with t the threshold, k samples in the bucket where the cumulated count reaches it and m below that bucket: the x with (x - left) k = (right - left)(t - m), raised to the recorded minimum and lowered to the maximum |
| HistogramSpec.PercentileOutside | nvm_ibverbs/benchmarks/readwrite/histogram.cc:72-91 | a negative p gives the minimum and one above 100 the maximum |
| HistogramSpec.BoundsAreSamplesIff | nvm_ibverbs/benchmarks/readwrite/histogram.cc:32-55 | no sample lies outside the recorded bounds; the minimum is a sample iff some sample is at most the last limit, the maximum iff some sample is at least 0; else they are that limit and 0 |
| HistogramSpec.PercentileAccuracy | nvm_ibverbs/benchmarks/readwrite/histogram.cc:72-91 | with k the least number such that num*p <= 100 k, the k-th smallest sample and the result lie in one bucket, so they differ by at most its width |
| Histograms.Histogram.Clear | nvm_ibverbs/benchmarks/readwrite/histogram.cc:32-41 | afterwards the histogram is that of no samples |
| Histograms.Histogram.FindBucket | nvm_ibverbs/benchmarks/readwrite/histogram.cc:45-48 | the linear search finds the bucket whose limits enclose the value |
| Histograms.Histogram.Add | nvm_ibverbs/benchmarks/readwrite/histogram.cc:43-55 | in place: the histogram of the samples and the new value |
| Histograms.Histogram.Merge | nvm_ibverbs/benchmarks/readwrite/histogram.cc:57-66 | in place: the histogram of both sample lists, also when merged with itself |
| Histograms.Histogram.Percentile | nvm_ibverbs/benchmarks/readwrite/histogram.cc:72-91 | the loop computes the value that the percentile results are about |
| Histograms.Histogram.Variance | nvm_ibverbs/benchmarks/readwrite/histogram.cc:98-102 | the square root's argument is the mean squared distance of the samples from their average (0 for none): never negative, and zero iff all samples are equal |
| BucketLimits.TableIsGood | nvm_ibverbs/benchmarks/readwrite/histogram.cc:11-30 | the 154 limits of the table are positive and strictly increasing |
| BucketLimits.TableValues | nvm_ibverbs/benchmarks/readwrite/histogram.cc:11-30 | what the limits are: 1 to 10, the sixteen up to 100, then each ten times the one sixteen before it, and 1e200 |
| Doorbell.FrozenChain | thirdparty/rlib/qps/doorbell_helper.hh:83-86 | freezing k requests leaves the chain of the first k, then null |
| Doorbell.BatchChain | thirdparty/rlib/qps/doorbell_helper.hh:70-108 | after any history of batches, k calls of next and freeze hand over exactly the first k, and sanity_check_sz counts k |
| Doorbell.FreezeDoneRestoresIff | thirdparty/rlib/qps/doorbell_helper.hh:100-103 | freeze_done undoes freeze iff it is not at the last request, where it links past the end |
| Doorbell.SizeIsFirstNull | thirdparty/rlib/qps/doorbell_helper.hh:134-146 | the size counted is the place of the first null link, from one on; without any it is one more than the array has |
| Doorbell.DoorbellHelper.FreezeAtRoundTrip | thirdparty/rlib/qps/doorbell_helper.hh:88-98 | freeze_at and freeze_done_at at one place restore the built ring |
| Doorbell.DoorbellHelper.Next | thirdparty/rlib/qps/doorbell_helper.hh:70-75 | advances iff the helper is not full |
| Doorbell.DoorbellHelper.Clear | thirdparty/rlib/qps/doorbell_helper.hh:105-108 | undoes the freeze of the current request and resets the counter |
| Doorbell.DoorbellHelper.SanityCheckSz | thirdparty/rlib/qps/doorbell_helper.hh:134-146 | counts the chain from the first request; one more than fits when no link is null, 0 when empty |
| Handshake.ScanPadded | nvm_ibverbs/src/rdma_common.cc:582-585 | a padded hexadecimal number is scanned back and scanning stops behind it |
| Handshake.MessageRoundTrip | nvm_ibverbs/src/rdma_common.cc:642-658 | scanning a printed message returns every field of the struct's widths, the space-padded address included |
| Handshake.MessageLengthIff | nvm_ibverbs/src/rdma_common.cc:607 | the message fills its 77 characters iff lid, qpn and psn fit their fields |
| Handshake.MessageLayout | nvm_ibverbs/src/rdma_common.cc:642 | what stands where in a message whose numbers fit: digits of fixed width, a colon behind each number, and the gid |
| Handshake.WordText | nvm_ibverbs/src/rdma_common.cc:357-360 | on either byte order a gid word is printed as its bytes in order |
| Handshake.GidToWire | nvm_ibverbs/src/rdma_common.cc:347-361 | the gid text is the hexadecimal of its 16 bytes in order, then a zero |
| Handshake.WireToGid | nvm_ibverbs/src/rdma_common.cc:323-346 | scanning that text restores the 16 bytes on either byte order |

## Left out

- RpcSafety.AcceptedRepliesAreAnswers: speaks of the first 2^64 - 1 acceptances of a client, because the counter then wraps to 0, the checksum of fatal replies.
- RpcSafety.NextAnswerIff: assumes that no earlier request made the server's behaviour undefined.
- SRpcSpec.AnswerWholeOrNop: stops below 4 GiB, where the 32-bit size given to create_exact wraps; AnswerRoundTrip covers all sizes.
- RecvRing.EveryEntryOnce: is about runs in which every repost succeeds; ClearConservesIff says what a failed one loses.
- RecvRing.ShowsOwnIff: is about runs that clear iterators in polling order, with reposts that succeed.
- RecvRing.RecvIter.Clear: models iterators that have a queue pair and entries; one built from a bare completion queue never reposts.
- RecvRing.PlacesAfterFailure: is about the first clear after a failure, when the driver takes the whole chain; Queues.PostRecvs covers every later state of the ring.
- SendProgress.PendingRefinesCount: leaves out requests posted by execute_batch alone and completions taken by wait_one_comp, which bypass the watermarks.
- HistogramSpec.PercentileAccuracy: is about samples in [0, 1e200), where the recorded minimum and maximum are those of the samples, and about reals instead of rounded doubles.
- Handshake.MessageRoundTrip: the terminating zero and the socket reads around the message are not part of it.
- The connection calls of libibverbs, device discovery, memory registration and mapping, socket setup, select and real time.
- Proto.ParseCreate: a name that fills its array without a terminating zero is read on into the fields behind it, as in the packed layout, but not past the struct, as the code would; the same holds for Proto.ParseDelete.
- Truthfulness.DeleteTruthfulIff: is about names that reach the daemon whole, of at most 63 bytes and without a zero; Proto.DeleteRoundTrip says what happens to others.
- RpcSafety.PrefixReplays: is not a step of a run; a run's corrupted datagrams are those that do not decode.
- Registry.RecvManager.MsgRcHandler: the assertions that stop the daemon when the name already has receive entries or they cannot be posted.
- What FetchMr and FetchDCAttr answer: any bytes of their structs' size.
- Entries that an application registers itself under its own names.
- The loop in generate_key that draws again while the key is zero.
- cc_rc_msg, fetch_remote_mr and the other client calls of the same shape as cc_rc.
- UD, DC and shared receive queue setup, configuration setters, naming helpers, logging, examples and benchmark programs.
- Histogram's text output and the square root.
- Locks of the factories: handlers run on one daemon thread.
