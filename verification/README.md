# nfsdump: verified model

nfsdump watches NFS traffic. `nfsdump2` takes captured packets apart into RPC
messages, pairs replies with calls and prints both; the tools under `pathtree`
and `scripts` reconstruct paths, merge reads and writes, and anonymize what was
printed. This project models the stateful algorithms in it and proves what they
guarantee over whole runs. `dafny verify dfyconfig.toml` checks everything.

| file | what it models |
|---|---|
| `Words.dfy` | 32-bit words, bytes, and memory behind C pointers |
| `AgingChains.dfy` | the two aging hash tables as values, and what their operations mean per key |
| `ChainedTable.dfy` | the same tables as linked nodes, refining those values |
| `RpcHeader.dfy` | RPC header decoding, and the encoding it undoes |
| `Ownership.dfy` | who owns a reassembly buffer |
| `PacketSteps.dfy` | `processPacket` as functions: framing, decoding, message loop |
| `Recorder.dfy` | `processPacket` on linked tables and a heap, refining those functions |
| `Reassembly.dfy` | reassembly delivers what was sent, among arbitrary traffic |
| `Deframing.dfy` | several records in one segment |
| `Delivery.dfy` | from a new process to the decoded messages: cuts, flows, conversations, records |
| `CallPairing.dfy` | which call a reply is taken to answer, over whole runs |
| `Printing.dfy` | joined names and hexadecimal numerals |
| `FullpathProtocol.dfy` | lookup client and service, and both together as a state machine |
| `RwMerge.dfy` | the merger of reads and writes, and the specification it meets |
| `PathTree.dfy` | path reconstruction, in C++ and in JavaScript |
| `Anonymizer.dfy` | the persistent maps of the anonymizer |
| `LogParser.dfy` | the pairing of calls and replies in a log |
| `Names.dfy` | hashed and escaped names, 64-bit numbers |
| `XdrCursor.dfy` | the cursor decoders for NFSv3 results |
| `PrintedText.dfy` | a reader of what they print |

How things are modelled:

- The imperative parts are classes and methods with the loops of the source,
  proved equal to functions on values; the theorems are about those functions.
- C integers wrap where the source's types do. Reads outside a packet or a
  buffer are not excluded: they give arbitrary bytes (`beyond`), and every
  result holds whatever those are.
- `malloc` and `free` are an explicit heap whose handles are never reused, so
  that freeing once and not leaking can be stated. The nodes of the tables are
  Dafny objects and are not freed.
- `struct rpc_msg` is taken to have the layout of the message on the wire.
- Interleavings in `Reassembly` consist of arbitrary packets apart from those of
  the flow in question. A theorem about one flow among arbitrary other traffic
  covers any number of flows: each is one flow, the others its traffic.
- Times are exact: clocks are 32-bit seconds in the tables, reals in the merger.
- Where a branch of the code breaks a promise on some inputs, the promise is
  stated as an equivalence with the exact condition; the names of these lemmas
  end in `Iff`, except for `FullPath` and `PrintWccData3`. Promises that the
  design makes only for well-behaved traffic are implications from assumptions
  about the trace: `ReassemblyCorrect` and what is built on it (segments in
  order, fully captured, nothing aged out), `BoundedStaleness` (tidy buckets),
  `CallPairing.ReplyPairing` (nothing of the key stale so far).

## What the code does that its documentation does not say

- The cull is meant to remove stale entries. It deletes by key, so with
  duplicate keys it can remove a fresh entry and leave a stale one
  (`CullExactIff`, `CullTakesFreshDuplicate`). The comment says that a bucket is
  culled on every lookup; it is on every insert.
- `hashLookupXid` expects one entry per XID. A retransmitted call makes two; the
  reply then takes the newer one.
- The limit `now - MAX_AGE` is unsigned and wraps in the first 30 seconds of the
  epoch (`InsertKeepsOwnIff` includes that case).
- `rpcStatus` is read relative to the packet's headers. For a reply behind
  another message of the same segment it is some word in front of the reply's
  results (`StatusIff`), and need not be the status (`SecondStatusWrong`).
- Bytes that pad a frame are payload to `processPacket`. Behind a message sent in
  one piece they are taken for a further record (`PaddedMessageIff`,
  `ZeroPaddingIsRead`), and a padded acknowledgement that finds no fragment is
  decoded as one, because its payload length wraps (`EmptyPacketIff`).
- The length of a verifier is trusted: on lengths with the top bit set the header
  comes out shorter than it is, or of no length (`ReplyRejectedIff`).
- A call without arguments at the very end of a packet is skipped and not
  remembered when its procedure is NULL; when it is not, it ends the packet.
- The log parser's comment says that pending calls are cleaned up every
  `cleanupInterval`; in fact this happens at every call that is not older than
  the latest one. The model follows the code, which keeps the promise about the
  lifetime all the more.
- The example output in the documentation of `fullpath` has a line for the
  unresolved handle 9a65. Neither program prints one: they print a line for
  every handle that has a row of its own.
- The in-memory querier asks the handler for the path of a row with an unresolved
  top and an empty path; the service client answers `false` (`QueriersAgreeIff`).
- Names that are empty at the leaf end leave no trace in a path (`PathIsJoin`).
- `closeMapFiles` does not save the file-id counter; this is harmless, since
  every allocation has saved it (`OpenAgain`, `MapFile.Close`).
- A name length of 0xFFFFFFFD or more is rounded up to zero (`NameInsideIff`), a
  handle of length zero at the very end is rejected (`FhRoundTripIff`), and
  `print_wcc_data3` can read through NULL (`PrintWccData3`).

## Model

| member | source | states |
|---|---|---|
| `AgingChains.CullPerKey` | nfsdump2/tcp_reassembly.c:75-88 | Culling while walking the same chain, duplicates included: of each key, exactly as many entries go as were stale, and they go from the newest end; the order of all others is kept. |
| `AgingChains.CullConserves` | nfsdump2/nfsrecord.c:1008-1019 | The cull neither loses nor doubles an entry: what is left and what was removed together are the chain. |
| `AgingChains.FirstInWalked` | nfsdump2/tcp_reassembly.c:80-82 | The lookup inside the cull always finds an entry, at or before the node being visited, so the assertion holds and the saved `next` is never the node removed. |
| `AgingChains.CullExactIff` | nfsdump2/tcp_reassembly.c:75-88 | The cull removes exactly the stale entries if and only if no key of the chain has a stale entry behind a fresh one. |
| `AgingChains.CullTakesFreshDuplicate` | nfsdump2/tcp_reassembly.c:75-88 | A concrete chain on which it removes a fresh retransmission and leaves the stale original. |
| `AgingChains.LookupOk` | nfsdump2/tcp_reassembly.c:15-36 | Lookup keeps every entry in the bucket of its own hash and the counter equal to the total length; it removes one entry of that key, or nothing. |
| `AgingChains.LookupPerKey` | nfsdump2/nfsrecord.c:927-967 | Lookup pops the newest entry of its key and leaves the lists of all other keys alone. |
| `AgingChains.InsertOk` | nfsdump2/tcp_reassembly.c:38-91 | Insert keeps the same invariants, moves on to the next bucket, and accounts for every entry: old ones and the new one are those kept and those culled. |
| `AgingChains.InsertPerKey` | nfsdump2/nfsrecord.c:974-1022 | Insert pushes on the list of its key; only keys of the culled bucket lose entries, as many as were stale. |
| `AgingChains.InsertKeepsOwnIff` | nfsdump2/tcp_reassembly.c:58-88 | An insert leaves its own entry in the table, one more than before even if an equal one was there, if and only if its bucket is not the one whose turn it is or its key has no stale entry (itself included, when the unsigned limit has wrapped). |
| `AgingChains.BoundedStaleness` | nfsdump2/tcp_reassembly.c:63-88 | Garbage cannot hide: in any run of lookups and inserts, duplicate keys included, in which no culled bucket has a stale entry behind a fresh one of its key, HASHSIZE inserts after time T leave nothing older than T - 30 in any bucket. |
| `AgingChains.StaleIff` | nfsdump2/tcp_reassembly.c:75-79 | What counts as stale: what is more than 30 seconds old or, in the first 30 seconds of the epoch, when the limit wraps, all but the last 30 seconds of the 32-bit clock. |
| `TableKeys.XidBucket` | nfsdump2/nfsrecord.c:110-115 | A call is kept in the bucket of xid + host + port modulo 3301. |
| `TableKeys.TcpBucket` | nfsdump2/tcp_reassembly.c:5-9 | A fragment is kept in the bucket of the sum of its numbers modulo 3301. For source ports from 32768 on the port expression is negative, and exactly when the sum of remainders is negative, too, 2^32 is added. |
| `AgingChains.UniqueRunTidy` | nfsdump2/tcp_reassembly.c:63-88 | A run that never inserts a key already there is such a run. |
| `ChainedTable.Table.Detach` | nfsdump2/tcp_reassembly.c:21-35 | The search loop with its pointer to the previous link unlinks exactly the first node with the key. |
| `ChainedTable.Table.CullOne` | nfsdump2/tcp_reassembly.c:79-86 | The lookup from inside the walk returns a node, and the rest of the walk stays linked behind what is left of the part walked. |
| `ChainedTable.Table.CullChain` | nfsdump2/nfsrecord.c:1009-1019 | The loop over linked nodes that are spliced out under it computes the cull of the chain as it was at the start. |
| `ChainedTable.Table.Lookup` | nfsdump2/nfsrecord.c:927-967 | The linked table refines the specification: result, chains, counter and cull index. |
| `ChainedTable.Table.Insert` | nfsdump2/tcp_reassembly.c:38-91 | The linked table refines the specification of insert with its cull, and hands back the culled entries. |
| `Ownership.TakeOut` | nfsdump2/nfsrecord.c:319-320 | The lookup transfers the buffer of the fragment it finds from the table to the packet; everything else stays owned as before. |
| `Ownership.DepositOk` | nfsdump2/nfsrecord.c:340-346 | The insert transfers the packet's buffer to the table and frees the buffer of each culled fragment once, so that live buffers and table entries stay in bijection. |
| `Ownership.FreeMine` | nfsdump2/nfsrecord.c:383-395 | Freeing the reassembled message leaves only the buffers that the table owns. |
| `PacketSteps.NextSegment` | nfsdump2/nfsrecord.c:349-375 | A later segment is copied inside the buffer; the packet either owns the complete message, or has given the buffer back to the table. |
| `PacketSteps.AdvanceExact` | nfsdump2/nfsrecord.c:397-546 | One message that does not end the loop moves `consumed` by exactly the record length, even when the unsigned payload length wraps, unless it is a NULL call whose header ends the packet: then, and only then, `consumed` goes to the end and nothing is recorded. |
| `PacketSteps.LoopProgress` | nfsdump2/nfsrecord.c:298-548 | Every turn of the message loop that does not return brings `consumed` strictly closer to the end, so the loop terminates on every input. |
| `PacketSteps.ProcessPacket` | nfsdump2/nfsrecord.c:298-557 | Whatever the packet, on every path out of the loop every buffer is owned by exactly one table entry again. |
| `PacketSteps.RunPackets` | nfsdump2/nfsrecord.c:139-558 | The same over every run of arbitrary packets. Every stored fragment has a buffer of rpc_len <= 16384 bytes of its own, and (nextSeq - firstSeq) mod 2^32 < rpc_len. What the buffers hold is the business of ReassemblyCorrect. |
| `Recorder.Recorder.FrameMessage` | nfsdump2/nfsrecord.c:317-377 | The TCP branch on linked tables and a heap of freeable blocks does what the specification of framing says. |
| `Recorder.Recorder.DecodeMessage` | nfsdump2/nfsrecord.c:379-546 | Header, call table and record fields of one message, as specified. |
| `Recorder.Recorder.MessageLoop` | nfsdump2/nfsrecord.c:298-557 | The loop over `consumed` computes the specified result. |
| `Recorder.Recorder.ProcessPacket` | nfsdump2/nfsrecord.c:139-558 | One packet on the C state refines the specification, keeps the ownership invariant, and frees nothing twice. |
| `Recorder.CHeap.FreeCulled` | nfsdump2/tcp_reassembly.c:83-85 | Each culled buffer is live when it is freed, and freed once. |
| `Reassembly.ForeignPacket` | nfsdump2/nfsrecord.c:317-377 | An arbitrary packet of any other connection changes neither the fragments of a flow nor a byte in their buffers, as long as none of them is stale. |
| `Reassembly.OwnPacket` | nfsdump2/nfsrecord.c:317-377 | Each of the flow's own segments with a payload, however long after the one before it, adds exactly its bytes to the prefix already in the buffer; the last one hands over the message. |
| `Reassembly.EmptyPacketIff` | nfsdump2/nfsrecord.c:317-377 | A packet of the flow without payload, with any sequence number and padding, changes nothing of the flow but, if it finds the fragment, the fragment's time. It hands nothing to the decoder if and only if it is not padded or finds the fragment. |
| `Reassembly.PaddedSoleIff` | nfsdump2/nfsrecord.c:326-348 | A message sent in one piece is always handed over. Nothing else is, and nothing of the flow stays in the table, if and only if the frame is not padded, or the loop ends with the message, or the padding is taken for a record that is too large. |
| `Delivery.PaddedMessageIff` | nfsdump2/nfsrecord.c:326-348 | For every encodable message: padding behind it does no harm if and only if there is none, or the length it is taken for is above 16384. |
| `Delivery.ZeroPaddingIsRead` | nfsdump2/nfsrecord.c:524-527 | A frame with four zero bytes behind a reply: they are decoded as an empty record, and processPacket gives up with -5. |
| `Reassembly.ReassemblyCorrect` | nfsdump2/nfsrecord.c:317-377 | For every trace, of any length, in which a flow's record of at most 16384 bytes is cut arbitrarily into in-order segments, among arbitrary other packets and its own packets without payload, from any initial sequence number, with nothing of the flow aged out while part of it is stored: its segments make the decoder get exactly the message sent, once, and nothing before it is complete; its packets without payload make it get something if and only if one is padded and finds no fragment; after every part of the trace the flow's buffer begins with exactly the bytes sent so far. |
| `Reassembly.UnfinishedIff` | nfsdump2/nfsrecord.c:335-346 | A record that goes on behind its first segment is given up with -11 if and only if it is longer than 16384 bytes; otherwise processPacket answers -12 and waits. |
| `Delivery.EveryCutDelivers` | nfsdump2/nfsrecord.c:317-377 | From a new process: every message of at most 16384 bytes, cut in any way that leaves the record mark whole into segments with any headers, times and padding (harmless padding, if there is one segment), with any packets of other connections and without payload between them, is delivered once. |
| `Delivery.EveryMessageIsDecoded` | nfsdump2/nfsrecord.c:298-558 | The same for every encodable message, down to what is decoded: the packet that completes it makes processPacket decode it to what was encoded, with its effect on the table of calls. |
| `Delivery.DecodedStatus` | nfsdump2/nfsrecord.c:472-482 | For replies decoded like that, `rpcStatus` is the first word of the results. |
| `Delivery.EveryFlowDelivers` | nfsdump2/nfsrecord.c:317-377 | Any number of flows interleaved in one trace of any length, each with packets without payload: the message of each is delivered, once. |
| `Delivery.ConversationDelivers` | nfsdump2/nfsrecord.c:317-377 | A connection that sends several messages one after the other, each beginning with a segment, and acknowledges in between: all are delivered, in order. |
| `Delivery.EveryRecordIsDecoded` | nfsdump2/nfsrecord.c:298-548 | From a new process: every sequence of encodable messages that fits a capture is decoded from the segment, with any possible headers, that holds their records. |
| `Delivery.DatagramIsDecoded` | nfsdump2/nfsrecord.c:298-548 | A UDP datagram that is one encodable message is decoded to what was encoded: code 1, one message, its record and its effect on the table of calls; the TCP table and the heap stay as they were. |
| `RpcHeader.HeaderRoundTrip` | nfsdump2/nfsrecord.c:753-911 | For every encodable CALL with AUTH_UNIX credentials and every REPLY (section 9 and Appendix A of RFC 5531), whatever the lengths and whatever follows: the exact padded header length, and the uid and gid that were encoded. |
| `RpcHeader.RawHeaderIff` | nfsdump2/nfsrecord.c:768-829 | Of all calls, with any version, program and credential, those and only those have a header that are of RPC version 2, program 100003 or 100005 and credential flavor 1, and are captured up to the length of their verifier; its length is then exact. |
| `RpcHeader.ReplyHeaderIff` | nfsdump2/nfsrecord.c:831-852 | Every reply that is captured up to the length of its verifier has a header, of the exact length, and no shorter one has. |
| `RpcHeader.PaddingIs` | nfsdump2/nfsrecord.c:826 | What the encoding pads with: the zeros missing to the next multiple of four, and no more. |
| `Delivery.CallRejectedIff` | nfsdump2/nfsrecord.c:379-395 | The decoder gives up on a whole call with -5 if and only if it is not of that version, program and flavor, and then records nothing and leaves the table of calls alone. |
| `Delivery.DatagramRejectedIff` | nfsdump2/nfsrecord.c:379-395 | The same for a whole UDP datagram, up to the state of the process. |
| `Delivery.SegmentRejectedIff` | nfsdump2/nfsrecord.c:379-395 | The same for a TCP segment that holds the record of a call. |
| `Delivery.ReplyRejectedIff` | nfsdump2/nfsrecord.c:379-395 | For every length word of a reply's verifier: exactly which ones make the decoder give up with -5 (the header length comes out negative) and with 0 (it comes out as zero), in both cases without touching the table of calls. |
| `Deframing.DecodeCallMessage` | nfsdump2/nfsrecord.c:414-425 | A call is decoded to what was encoded and enters the table of calls under its xid, host and port. |
| `Deframing.DecodeReplyMessage` | nfsdump2/nfsrecord.c:426-492 | A reply takes the newest outstanding call of its xid, host and port out of the table and gets its version and procedure, or 3 and -1. |
| `Deframing.LoopRecords` | nfsdump2/nfsrecord.c:298-548 | From any record boundary the loop decodes all records that follow, each once, and returns 1 at the end. |
| `Deframing.DeframingRoundTrip` | nfsdump2/nfsrecord.c:298-548 | A segment made of complete records of encodable messages is taken apart into exactly those messages (section 11 of RFC 5531), with the effect of each on the table of calls. |
| `Deframing.FollowsOffsets` | nfsdump2/nfsrecord.c:326-331 | The messages visited are those at the true record offsets. |
| `Deframing.StatusIff` | nfsdump2/nfsrecord.c:472-482 | Exactly which word `rpcStatus` is for reply j of a segment of records. Its offset is that of the reply's results if and only if j is 0, and then it is the status. |
| `Deframing.FirstStatus` | nfsdump2/nfsrecord.c:472-482 | The status is right whenever the message starts where the headers end: also in datagrams and reassembled messages. |
| `Delivery.SecondStatusWrong` | nfsdump2/nfsrecord.c:472-482 | A segment with two replies, whatever its headers: the status reported for the second one is not its status but its record mark. |
| `CallPairing.QueueIsOpen` | nfsdump2/nfsrecord.c:927-1022 | After any run of lookups and inserts in which nothing of a key has gone stale so far, the table's list of the key is made of exactly the inserts that no lookup has answered, latest first. |
| `CallPairing.FindsTaken` | nfsdump2/nfsrecord.c:927-967 | Whatever goes stale, a lookup finds the entry of an earlier insert of its key. |
| `CallPairing.TakenOnce` | nfsdump2/nfsrecord.c:927-1022 | Whatever goes stale, no insert is found by two lookups. |
| `CallPairing.FindsLatestOpen` | nfsdump2/nfsrecord.c:927-967 | As long as nothing of its key has gone stale before it, a lookup finds the latest earlier insert of its key that no lookup in between has answered, and nothing if there is none. |
| `CallPairing.RunAgrees` | nfsdump2/nfsrecord.c:414-477 | Over every run of arbitrary packets, the recorded calls and replies are the only operations on the table of calls, in their order. |
| `CallPairing.ReplyPairing` | nfsdump2/nfsrecord.c:414-477 | Over every run of arbitrary packets from a table without calls of its key, a reply before which nothing of its key has gone stale is reported with version and procedure of the latest earlier call of its xid, host and port that no reply in between has answered, or as version 3, procedure -1; no call is answered twice. |
| `CallPairing.ReplyNeverInvented` | nfsdump2/nfsrecord.c:414-477 | Over every run of arbitrary packets from a table without calls of its key, whatever goes stale, a reply is reported with version and procedure of an earlier call of its xid, host and port that no other reply gets, or as version 3, procedure -1. |
| `FullpathRows.RowRoundTrip` | pathtree/fullpath.cc:111 | A printed line parses back to its three fields. |
| `FullpathRows.OtherColumns` | pathtree/fullpath.func.js:7-8 | Lines with one or two columns lack the others, and columns behind the third are dropped. |
| `FullpathService.Service.ParseInput` | pathtree/fullpath-svc.cc:18-35 | Loading fills the table with every line under its own first field, or fails on a token without a comma. |
| `FullpathService.LastLineWins` | pathtree/fullpath-svc.cc:28-31 | The service answers with the last line loaded for a filehandle. |
| `FullpathService.Service.ServeSocket` | pathtree/fullpath-svc.cc:39-52 | One reply per request, in order, from the table or the filehandle itself. |
| `FullpathQuerier.SvcQuerier.Lookup` | pathtree/fullpath.func.js:112-120 | A lookup appends its callback to those of its filehandle and sends one line. |
| `FullpathQuerier.SvcQuerier.ProcessResult` | pathtree/fullpath.func.js:121-140 | A result fires all callbacks of its filehandle, in order and with one value, and forgets them; a result nobody waits for does nothing. |
| `FullpathProtocol.RunKeeps` | pathtree/fullpath.func.js:112-140 | The invariant of the protocol holds after every interleaving of lookups, replies and receipts, from any state that satisfies it. |
| `FullpathProtocol.NeverTwice` | pathtree/fullpath.func.js:121-140 | At every point of every interleaving: no callback has fired more often than it was registered, all callbacks of a filehandle got the value computed from the reply to it, and every pending filehandle has a request or reply in flight. |
| `FullpathProtocol.UnknownGivesNoPath` | pathtree/fullpath.func.js:128-137 | End to end: after any lines were loaded, in any interleaving, the callbacks of a filehandle of which there was no line get `false`. |
| `FullpathProtocol.LastLineDecides` | pathtree/fullpath.func.js:128-140 | End to end: of a filehandle with lines, the last one decides, by its first three columns. Its callbacks get `false` if the path is empty, the path if the top is empty, and otherwise what the handler makes of the line. |
| `FullpathProtocol.PathlessLine` | pathtree/fullpath.func.js:128-137 | End to end: if the last line of a filehandle has no path column, its callbacks get `false`. |
| `FullpathProtocol.DefaultPath` | pathtree/fullpath.func.js:28-30 | The path that the default handler makes up of a line. |
| `FullpathProtocol.FiresInOrder` | pathtree/fullpath.func.js:112-140 | In every interleaving: for each filehandle, the callbacks that have fired, and then those that are pending, are those of its lookups in their order. |
| `FullpathProtocol.ExactlyOnce` | pathtree/fullpath.func.js:112-140 | When both channels have drained, nothing is pending and every callback has fired exactly as often as it was registered. |
| `FullpathProtocol.AnyOrderAnswers` | pathtree/fullpath-svc.cc:39-52 | From every state of a run, whatever the order of replies and receipts: they end after exactly as many steps as there is work, with nothing pending and every registered callback fired, and never get stuck before. |
| `FullpathProtocol.EveryLookupAnswered` | pathtree/fullpath.func.js:112-140 | From every reachable state the messages on their way can be delivered, after which every registered callback has fired. |
| `FullpathProtocol.QueriersAgreeIff` | pathtree/fullpath.func.js:45-72 | With any handler, the in-memory querier and the service client answer a row alike if and only if the row is not one with an unresolved top and an empty path for which the handler gives a path. |
| `FullpathProtocol.DefaultQueriersAgreeIff` | pathtree/fullpath.func.js:28-39 | With the default handler they differ on all rows with an unresolved top and an empty path, and on no others. |
| `RwStream.MergerMeetsSpec` | pathtree/rwmerge.js:26-85 | For every input in any order: the output is the concatenation, over the groups cut by (op, name, gap in time), of what the specification says about each group. |
| `RwStream.RwOutput` | pathtree/rwmerge.js:87-113 | A read or write group is written as ascending, separate extents that cover exactly the touched segments, each with the time of its first segment and the least version of the group. |
| `RwStream.AbsorbedFields` | pathtree/rwmerge.js:38-61 | The fields after absorbing a group: last time, number of entries, least version. |
| `RwStream.GroupsPartition` | pathtree/rwmerge.js:38-42 | The groups are a partition of the rows, cut exactly where the program starts a new group. |
| `RwMeaning.PartitionUnique` | pathtree/rwmerge.js:38-42 | There is only one such partition. |
| `RwMeaning.IsExtentsUnique` | pathtree/rwmerge.js:87-113 | There is only one list of extents that meets the specification of a group. |
| `RwMeaning.CountsAddUp` | pathtree/rwmerge.js:95-101 | The counts of the extents add up to the number of distinct segments. |
| `RwMeaning.EarliestTouch` | pathtree/rwmerge.js:52-54 | On rows sorted by descending time, the time of a segment is the earliest at which it was touched. |
| `RwMeaning.SortedInput` | pathtree/rwmerge.js:26-113 | On input sorted as the program asks for, each group of reads or writes is written as its canonical extents, each with the earliest time at which any row of the group touched its first segment. |
| `RwMeaning.SortedInputInBytes` | pathtree/rwmerge.js:26-113 | The same in bytes, for groups without empty reads and writes: the records cover segment s if and only if some row has a byte from s * segmentSize up to (s + 1) * segmentSize, and the time of each is the earliest at which a row has a byte in its first segment. |
| `RwMeaning.TouchesItsBytes` | pathtree/rwmerge.js:22-24 | A row with a count touches segment s, as the specification says it by two inequalities, if and only if it has a byte there. |
| `RwStream.TouchesIs` | pathtree/rwmerge.js:49-50 | The segments from `computeSegment` of the first byte to that of the last are exactly those the row touches, also for rows without a count. |
| `RwStream.CeilDivEnough` | pathtree/rwmerge.js:115-119 | The count of a readdirp record is the least number of segments that holds all entries. |
| `RwMerge.RwMerge.constructor` | pathtree/rwmerge.js:11-20 | Options that are zero or missing are replaced by the defaults; no group is open. |
| `RwMerge.RwMerge.ProcessRow` | pathtree/rwmerge.js:38-61 | One row: the open group is written and replaced, or absorbs the row. |
| `RwMerge.RwMerge.RecordRW` | pathtree/rwmerge.js:87-113 | The loop over the sorted segments writes the extents of the open group. |
| `RwMerge.RwMerge.Run` | pathtree/rwmerge.js:38-65 | The program on a whole input writes what the declarative specification demands, group by group. |
| `PathTree.PathIsJoin` | pathtree/fullpath.cc:77-97 | The accumulating recursion gives the names from root to leaf joined by slashes, and an empty top exactly when the chain ends at a known mountpoint. |
| `PathTree.FullPath` | pathtree/fullpath.js:53-66 | The same for a whole path, which is the plain join of all names if and only if the handle's own name is not empty or there is at most one name. |
| `PathTree.TerminatesIff` | pathtree/fullpath.cc:77-97 | The recursion returns if and only if no handle repeats among its first |relations| + 1 calls, and then within that many (pigeonhole). |
| `PathTree.SameRelations` | pathtree/fullpath.js:20-30 | After any rows, updating relations in place and replacing them leave the same visible relations. |
| `PathTree.LastRowWins` | pathtree/fullpath.cc:64-73 | In both programs a handle is known exactly if it has a row, and its last row alone decides its name and its parent, or that it is a mountpoint. |
| `PathTree.SamePaths` | pathtree/fullpath.js:53-66 | The C++ and the JavaScript program give the same top and path for every handle after any rows. |
| `PathTree.Fullpath.ParseInput` | pathtree/fullpath.cc:57-75 | The loop over the input builds that table. |
| `PathTree.Fullpath.WriteResults` | pathtree/fullpath.cc:99-114 | One line for every handle of the table, and no other: the handle, the end of its chain of parents if that is not in the table, and its names from there on joined by slashes, with commas between. |
| `Anonymizer.AnonymizeKeeps` | scripts/anonymize.pl:348-364 | One call keeps the cache inside the database, MAX KEY equal to the counter, the unmapped ids fixed, and each number given to exactly one id; it changes no binding. |
| `Anonymizer.OpenAgain` | scripts/anonymize.pl:600-739 | Reopening the files restores exactly the state, cache aside, whether or not they were closed. |
| `Anonymizer.NumberedInOrder` | scripts/anonymize.pl:348-400 | In every history of calls and restarts that begins with an empty file, the ids are numbered without gaps in the order of their first appearance. |
| `Anonymizer.FirstGiven` | scripts/anonymize.pl:657-690 | The value that each map gives first: 101000 in hexadecimal for uids, gids and file ids, 30 for hosts, four zeros for words; and which uids and gids stand for themselves. |
| `Anonymizer.FourDigitsReadBack` | scripts/anonymize.pl:426 | A word number is written with at least four digits, and can be read back. |
| `Anonymizer.HistoryKeeps` | scripts/anonymize.pl:600-766 | No history of calls and restarts loses or changes a binding. |
| `Anonymizer.Stable` | scripts/anonymize.pl:331-346 | The same id gets the same value at any later time, whatever calls and restarts lie in between. |
| `Anonymizer.InjectiveIff` | scripts/anonymize.pl:348-400 | A map is injective if and only if no number given out is written like an id that stands for itself. |
| `Anonymizer.UidsInjectiveIff` | scripts/anonymize.pl:47-76 | The uid and gid maps are injective if and only if the counter is at most 0x60001 = 393217. |
| `Anonymizer.UidsFromEmptyIff` | scripts/anonymize.pl:600-739 | The same after every history of calls and restarts that begins with an empty file. |
| `Anonymizer.StableFromEmpty` | scripts/anonymize.pl:600-739 | In every history that begins with an empty file, an id keeps its value for ever. |
| `Anonymizer.OthersInjective` | scripts/anonymize.pl:384-400 | The maps of file ids and hosts are always injective. |
| `Anonymizer.WordsInjective` | scripts/anonymize.pl:81-135 | The map of words is always injective: no word that stands for itself looks like four or more hexadecimal digits. |
| `Anonymizer.WordPartsInjective` | scripts/anonymize.pl:402-434 | Two lists of word parts that are anonymized alike, at any two times, are equal. |
| `Anonymizer.MapFile.constructor` | scripts/anonymize.pl:600-739 | Opening and initializing gives the specified state for any earlier file. |
| `Anonymizer.MapFile.Anonymize` | scripts/anonymize.pl:366-382 | The lookup through cache, database and counter refines the specification. |
| `Anonymizer.MapFile.AnonymizeParts` | scripts/anonymize.pl:405-433 | The loop that rewrites the parts of a word in place refines the specification. |
| `Anonymizer.MapFile.Close` | scripts/anonymize.pl:741-766 | Closing changes nothing in the file: every allocation had already saved the counter. |
| `LogParser.TableHoldsWaiting` | pathtree/nfsdump.func.js:114-153 | After any trace the table holds exactly the calls that have been neither answered nor replaced nor expired. |
| `LogParser.ReplyPairing` | pathtree/nfsdump.func.js:125-134 | In columns of the log, when xids have no dot: a reply is paired with the call before it that comes from the client the reply goes to, has the same xid, and has since been neither answered, nor repeated by that client, nor expired; with nothing if there is none; and there is at most one. |
| `LogParser.KeyPairing` | pathtree/nfsdump.func.js:114-134 | The same in terms of the keys of the table, for every trace, whatever the xids. |
| `LogParser.PairsAre` | pathtree/nfsdump.func.js:92-134 | The pairs that a whole file yields are exactly the calls with the replies that are for them in this sense, the call first. |
| `LogParser.AnsweredOnce` | pathtree/nfsdump.func.js:131-133 | No call is paired twice. |
| `LogParser.PendingIsRecent` | pathtree/nfsdump.func.js:140-153 | With a clock that does not go back, after every call all pending calls are within the lifetime of it. |
| `LogParser.KeyIff` | pathtree/nfsdump.func.js:115-126 | A call and a reply have the same key if and only if the source of the one is the destination of the other and the xids agree; two calls, if and only if their sources and xids agree (xids without a dot). |
| `LogParser.DottedXidsCollide` | pathtree/nfsdump.func.js:122-127 | A concrete call and reply of different clients, with a dot in an xid, that have the same key. |
| `LogParser.Parser.ProcessRow` | pathtree/nfsdump.func.js:92-107 | One row refines the specification, including what is handed to `process`. |
| `LogParser.Parser.CleanupCalls` | pathtree/nfsdump.func.js:140-153 | The deleting loop keeps exactly the calls that are recent enough. |
| `LogParser.Parser.ParseFile` | pathtree/nfsdump.func.js:71-81 | A whole file: the final table and all pairs, in order. |
| `Names.PrintHashed` | nfsdump2/nfs_v3.c:1268-1280 | For every non-empty name the one-pass loop prints the join of the hashed segments of the name; "", "." and ".." are left as they are. |
| `Names.StructureKept` | nfsdump2/nfs_v3.c:1212-1246 | The name is its segments joined by slashes. The hashed name has as many, as long as digests have no slash: those that are empty, "." or ".." as they were, and of every other one the digest. |
| `Names.EscapeRoundTrip` | nfsdump2/nfs_v3.c:1255-1266 | Escaped raw names can be read back, and hold no quote and no white space. |
| `Names.EscapedByte` | nfsdump2/nfs_v3.c:1256-1265 | Quote, backslash and white space are printed as a backslash and two hexadecimal digits, every other byte as it is. |
| `Names.EscapeConcat` | nfsdump2/nfs_v3.c:1256-1265 | Names are escaped byte by byte. |
| `Names.PrintRaw` | nfsdump2/nfs_v3.c:1255-1266 | The loop prints the escaped name between quotes. |
| `Names.Uint64Printed` | nfsdump2/nfs_v3.c:1316-1363 | Printing the upper word plainly and the lower one padded to eight digits prints the 64-bit number; without an upper word the lower one alone. |
| `Printing.HexReadsBack` | nfsdump2/nfs_v3.c:1305-1307 | Numbers are printed as their hexadecimal numerals, without leading zeros. |
| `PrintedText.PaddedReadsBack` | nfsdump2/nfs_v3.c:1329-1330 | Padded numbers are printed with the number of digits asked for, and can be read back. |
| `XdrCursor.PrintFattr3` | nfsdump2/nfs_v3.c:1501-1547 | The result is 21 words further if all of them lie before the end, and NULL otherwise; what is printed is known for every point at which the packet can be cut off. |
| `XdrCursor.FattrRoundTrip` | nfsdump2/nfs_v3.c:1501-1547 | Attributes (section 2.5 of RFC 1813) are read back as they were encoded. |
| `PrintedText.FattrReadsBack` | nfsdump2/nfs_v3.c:1513-1544 | The printed attributes can be read back: split at spaces they are the fourteen labels in order, each with its own number in hexadecimal or its time in decimal seconds and microseconds. |
| `PrintedText.PreOpReadsBack` | nfsdump2/nfs_v3.c:1685-1697 | The same for the attributes from before an operation. |
| `PrintedText.TimeReads` | nfsdump2/nfs_v3.c:1056-1059 | A printed time has the seconds in front of the point and the microseconds, rounded down, behind it; six digits of them whenever they are less than a second. |
| `XdrCursor.PostOpRoundTrip` | nfsdump2/nfs_v3.c:1597-1613 | Optional attributes, present or not, are stepped over exactly and shown as they are. |
| `XdrCursor.PostOpAnyFlag` | nfsdump2/nfs_v3.c:1607-1609 | Attributes are read behind every flag that is not zero. |
| `XdrCursor.PrintPostOpAttr3` | nfsdump2/nfs_v3.c:1597-1613 | NULL in, NULL out; on encoded attributes, present or not, it stops at their end and prints them. |
| `XdrCursor.PrintPreOpAttr3` | nfsdump2/nfs_v3.c:1673-1701 | Six words or NULL, with the text for every cut. |
| `XdrCursor.PrintWccData3` | nfsdump2/nfs_v3.c:1652-1671 | It dereferences NULL exactly when the first part is announced but cut off; otherwise result and text are as specified. |
| `XdrCursor.WccRoundTrip` | nfsdump2/nfs_v3.c:1652-1671 | Encoded wcc_data with any of its parts is stepped over exactly, without a fault. |
| `XdrCursor.PrintFh3` | nfsdump2/nfs_v3.c:922-963 | The length word, the rounding to words, the two tests and the loop over the words. |
| `XdrCursor.FhRoundTripIff` | nfsdump2/nfs_v3.c:922-963 | An encoded handle (section 4.10 of RFC 4506) is stepped over exactly if and only if it is not empty or another word follows before the end; its bytes are printed two digits each. |
| `XdrCursor.PrintFn3` | nfsdump2/nfs_v3.c:1178-1210 | Rounding in 32 bits, the test, and the name handed on. |
| `XdrCursor.FnRoundTripIff` | nfsdump2/nfs_v3.c:1178-1210 | An encoded name (section 4.11 of RFC 4506) is found byte for byte, and stepped over exactly if and only if its length is at most 0xFFFFFFFC. |
| `XdrCursor.NameInsideIff` | nfsdump2/nfs_v3.c:1185-1203 | In a packet, a name is accepted that does not lie before the end if and only if its length is one of the three that wrap to zero and there is room for the length. |
| `XdrCursor.PrintLookupOk` | nfsdump2/nfs_v3.c:604-614 | On the encoded results of a LOOKUP the cursor, passed through the three decoders, stops at their end, and handle and attributes are printed as encoded. |
| `XdrCursor.LookupRoundTrip` | nfsdump2/nfs_v3.c:604-614 | The encoded results of a successful LOOKUP are stepped over exactly, and handle and attributes are printed as encoded. |

## Left out

- Decoding of the Ethernet, IP, TCP and UDP headers: their results are fields of `Packet`, and the tests for short packets reduce to one.
- Capture, option parsing, signals, rotation of output files, `iprecord.c`, `nfs_v2.c`, the per-procedure switches and counters, and everything else `printRecord` prints: long, flat tables. The code generated for `xdr_*` is not part of this model.
- `print_it` in `processPacket`: it is not set on every path; the model records what was decoded, not whether it is printed.
- Segments out of order, retransmitted or lost, and segments that hold the end of one message and the start of the next: `ReassemblyCorrect` and `ConversationDelivers` are about messages cut into in-order segments of their own. The ownership and fragment invariants hold for every run of any packets.
- A second message that is split at the end of a packet: `seq` and the remaining length are not adjusted after the first one, so it is not reassembled; the model follows the code, and the round trips are about packets of complete records or of one message.
- The rest of a segment behind the end of a reassembled message is dropped by the code; no property is stated about it.
- The actual digest: any function to text without slashes.
- The empty name in `print_string` with hashed names, for which the code reads one byte past the name.
- Values printed by `print_o_uint32`, `print_o_uint64`, `print_o_nfstime3` and the decoders for directory entries.
- CSV quoting and escaping, white space inside tokens, sockets and their buffers, and object keys with a special meaning in JavaScript. Filehandles in lookups are non-empty and hold neither comma nor newline, as the hexadecimal ones do; `parseInt` has been applied to numbers, and fields that are not numbers are outside the model.
- Rounding of floating-point numbers in the merger: times and versions are reals.
- The order in which hash maps are traversed: lines of `WriteResults` and keys in `CleanupCalls` come in any order.
- Cyclic parents in `constructPath`, on which the programs do not return: `TerminatesIff` tells them apart.
- `anonymizeWORD` and `anonymizePATH`: the splitting of words into tokens, suffixes and punctuation, with the empty fields that Perl's `split` drops; and `anonymizeIADDR`, which only puts a port behind a host. Runs without map files keep no state.
- An id that is literally `MAX KEY`, which would collide with the saved counter.
- XdrCursor.PrintFn3: the text that `print_string` prints for the name is stated in `Names`, on names as characters.
- LogParser.ReplyPairing: stated for xids without a dot, such as the hexadecimal ones that nfsdump prints; `KeyPairing` is about all of them, and `DottedXidsCollide` shows why the columns do not decide then.
- Filters that subclasses of the log parser install, pausing and resuming.
