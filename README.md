# IPNS record resolution and the null node service, modelled in Dafny

This project models two parts of a C implementation of an IPFS node.

**Name records** (`publisher.dfy`, module `Publisher`). An IPNS entry is one version of a mutable name record. It has a value, a validity date-time (RFC 3339, section 5.6), a validity-type tag and an optional sequence number. The module models:
- the selector that picks the best of several entries: highest sequence first, then the later validity, then a `memcmp` tie-break on the raw encoded values;
- the end-of-life validator;
- the byte buffer that is signed (value, validity, the tag's bytes, a zero byte);
- the byte-copy helper;
- publishing a name. Publishing writes `hash -> own id` to the local datastore, then hands the routing layer a Kademlia message that names the node itself as the only provider.

**Null node** (`null_node.dfy`, module `NullNode`). This is the listener service. The module models:
- the maintenance rule run on each idle tick for one peer: either a replication backup nudge, or a liveness ping that may mark the peer not connected;
- the listener's admission counter against the connection cap;
- its round-robin cursor over the peer list;
- the exit rule of the per-connection loop and its single counter decrement.

Every collaborator is an input:
- the RFC 3339 parser, fed by the protobuf accessor for the validity field, is the oracle `timeOf`;
- the clock is the value `now`;
- allocation results, the datastore's acceptance, the routing `send`, `connect`, `ping`, multistream negotiation, stream reads and protocol dispatch are given as their results;
- journal sync is recorded as called or not called.

The classes `Peer`, `Datastore`, `DatastoreRecord`, `Libp2pRecord` and `KademliaMessage` follow the C structs that the code updates in place. `Listener` stands for the locals of `ipfs_null_listen` that change across events: `count` and `current_peer_entry` (core/null.c:135, 150). The selector, the buffer fill and the copy are loops over arrays and sequences, as in the C.

`wrappers.dfy` holds the `Option` type. It stands for pointers that may be NULL.

## Model

| member | source | states |
|---|---|---|
| `Publisher.MemcmpPrefix` | namesys/publisher.c:98 | memcmp over strlen of the current best, with the candidate read through its terminator; the sign is -1, 0 or 1 |
| `Publisher.MemcmpPrefixMeaning` | namesys/publisher.c:97-99 | the tie-break memcmp is positive iff the candidate is lexicographically greater AND the best is not a prefix of it |
| `Publisher.Step` | namesys/publisher.c:79-101 | one pass of the loop: only the candidate can replace the best, and then best_seq is its sequence; best_seq never goes down once a record is held; a record without a sequence, or a tie whose two validities do not both parse, keeps the best |
| `Publisher.Scan` | namesys/publisher.c:71-103 | the loop state after n records: best_i is -1 (with best_seq 0) or the index of one of those n records |
| `Publisher.ScanFindsMaximum` | namesys/publisher.c:78-106 | best_i stays -1 iff no record so far has a sequence; otherwise best_i holds a sequence and best_seq is the maximum present sequence |
| `Publisher.ScanPicksLatest` | namesys/publisher.c:86-96 | when every record tied at the winning sequence parses, the winner's (sec, nsec) is not earlier than any of theirs |
| `Publisher.SelectRecord` | namesys/publisher.c:69-109 | NULL idx/recs/vals gives ErrInvalidParam; no sequenced record (the empty list too) gives ErrNoRecord; *idx is untouched in both cases; otherwise 0, with *idx set to an index holding the maximum sequence that is also latest among its ties whenever they all parse |
| `Publisher.StepSkipsLowerSequence` | namesys/publisher.c:79-81 | for every loop state, a record whose sequence is below best_seq keeps the best |
| `Publisher.StepTakesHigherSequence` | namesys/publisher.c:82-85 | for every loop state, a record with a sequence replaces the best, whatever the validities are, while none is held or when its sequence is strictly higher |
| `Publisher.StepTieRule` | namesys/publisher.c:86-99 | for every loop state, on a tie whose two validities parse, the candidate replaces the best iff its validity is later, or equal with memcmp > 0; otherwise the best is kept, and best_seq is unchanged either way |
| `Publisher.SequenceDominatesValidity` | namesys/publisher.c:83-85 | a two-record instance: sequences 1 then 2 select the second record, whatever the validities are |
| `Publisher.LaterValidityWinsTie` | namesys/publisher.c:86-96 | a two-record instance: with sequence 5 twice and both validities parseable, a later second validity selects the second record |
| `Publisher.ZeroSequenceSelectable` | namesys/publisher.c:79-85 | a first record with sequence 0 is selected, because best_i is still -1 |
| `Publisher.ExtendingValueLosesTie` | namesys/publisher.c:97-99 | with equal sequence and time, a candidate whose raw value extends the best's does not win, although it is lexicographically greater |
| `Publisher.ValidateRecord` | namesys/publisher.c:119-146 | allocation failure gives ErrAllocFailed; a non-EOL tag gives ErrUnrecognizedValidity; an unparsable EOL validity gives the parser's code; otherwise ErrExpiredRecord iff now.nsec > ts.nsec (the second disjunct never holds), else 0 |
| `Publisher.ValidateRecordIntended` | namesys/publisher.c:139-141 | the evidently intended test: expired iff now is strictly later than the validity in (sec, nsec) order, so a validity equal to now is still valid; the other outcomes are ValidateRecord's |
| `Publisher.ValidateAgreesWithinSecond` | namesys/publisher.c:139-141 | when the validity's seconds equal the clock's, the test as written and the intended test agree |
| `Publisher.FutureRecordReportedExpired` | namesys/publisher.c:139-141 | a record valid for another 10^6 s is reported expired by the test as written, and is valid under the intended test |
| `Publisher.PastRecordReportedValid` | namesys/publisher.c:139-141 | a record past its end of life by decades is accepted by the test as written, and is expired under the intended test |
| `Publisher.TypeBytes` | namesys/publisher.c:26-28 | the validity-type tag occupies sizeof(IpnsEntry_ValidityType) = 4 bytes |
| `Publisher.TypeBytesRoundTrip` | namesys/publisher.c:26-28 | the tag's 4 in-memory bytes read back to the tag |
| `Publisher.SigDataLayout` | namesys/publisher.c:21-29 | the signed buffer has length \|value\| + \|validity\| + 4 + 1 and splits into the value, the validity, the tag (EOL when absent) and a trailing zero |
| `Publisher.SigDataDeterminesType` | namesys/publisher.c:21-29 | equal signed buffers, with equal value-plus-validity lengths, carry the same validity type |
| `Publisher.WriteBytes` | namesys/publisher.c:23-28 | strcpy, strcat and memcpy into the buffer write the source at the offset and leave every other byte as it was; the NUL that strcpy and strcat also write after the source is left out, because the next write overwrites it and calloc already supplies the last one |
| `Publisher.EntryDataForSig` | namesys/publisher.c:14-32 | NULL iff the entry, its value or its validity is missing or calloc fails; otherwise a fresh buffer equal to value ++ validity ++ tag bytes ++ [0] |
| `Publisher.CopyBytes` | namesys/publisher.c:157-165 | returns 1 iff malloc succeeds, and then *to equals from and *to_size == from_size; on 0, *to is NULL and *to_size is unchanged |
| `Publisher.Datastore.Put` | namesys/publisher.c:191 | an accepted record is stored under its key; a rejected one leaves the store unchanged |
| `Publisher.StoreLocally` | namesys/publisher.c:175-195 | the local write succeeds iff the record and both copies allocate and put accepts; only then does the store map hash to id |
| `Publisher.BuildAnnouncement` | namesys/publisher.c:197-226 | if every allocation succeeds, the message has exactly one provider (self) and a record with author = id, key = hash, value = id; otherwise no message |
| `Publisher.Publish` | namesys/publisher.c:174-231 | any failure before the send gives 0 and nothing sent; a successful put is kept after later failures; the announced message is the self-announcement; the result is send's result unchanged |
| `NullNode.Maintain` | core/null.c:92-124 | the decision for a non-NULL peer: a local peer gives 1 and nothing else happens. The backup branch runs iff a partner exists, announce is on and announce_minutes*60 - (now - lastConnect) < 0. There, a failed connect of an unconnected peer gives 0 and no sync; otherwise one sync and 1. Outside it, the peer becomes NOT_CONNECTED only if it has a session, has been silent over 180 s, is connected and fails the ping; the result is 1 |
| `NullNode.DoMaintenance` | core/null.c:87-125 | a NULL peer gives 0 and nothing is called; otherwise the result, the calls made and the peer's new connection type are Maintain's over the peer's old fields, and its session is untouched |
| `NullNode.ServeSession` | core/null.c:64-78 | the loop leaves at the first pass whose negotiation or read fails or whose dispatch returns <= 0; every earlier pass continued; dispatch is called once per pass that got past the read |
| `NullNode.Next` | core/null.c:189-192 | the cursor moves to the next entry and wraps to the head past the end, staying inside the list |
| `NullNode.AdvanceFullCycle` | core/null.c:189-192 | K ticks over K peers bring the cursor back to where it started |
| `NullNode.WithinOneCycle` | core/null.c:185-193 | at most K ticks from cursor c visit peer p once if they reach it, and not at all otherwise |
| `NullNode.VisitCount` | core/null.c:185-193 | N ticks from cursor c visit peer p exactly N/K times, plus one if p lies within N mod K steps of c |
| `NullNode.RoundRobinFair` | core/null.c:185-193 | N ticks over K peers visit each peer floor(N/K) or ceil(N/K) times |
| `NullNode.Listener.constructor` | core/null.c:135-152 | count starts at 0 and the cursor at the head of the peer list; a non-negative cap is required so that 0 <= count <= CONNECTIONS holds from the start |
| `NullNode.Listener.Accept` | core/null.c:162-184 | when count >= CONNECTIONS, the connection is closed and count is unchanged; otherwise count rises by exactly 1, so it never exceeds CONNECTIONS. Work is queued iff the params allocate. A failed address format gives ip = NULL and port = 0 |
| `NullNode.Listener.Connection` | core/null.c:41-85 | for a connection admitted earlier (count > 0): if the session allocates, the loop runs to its exit rule and count drops exactly once; if it does not, the call returns with count untouched |
| `NullNode.Listener.Tick` | core/null.c:185-193 | on a non-empty list, the cursor wraps forward and the visit is recorded; a NULL entry gives 0 and no calls; otherwise the result, the calls and the entry's new connection type are Maintain's over its old fields |
| `NullNode.ListenerFair` | core/null.c:185-193 | every tick so far of a listener has visited each peer floor(N/K) or ceil(N/K) times |

## Behaviour of the code as written that the model keeps

- `Publisher.SelectRecord` compares with `memcmp` over `strlen` of the current best (namesys/publisher.c:98). If the best's value is a proper prefix of the candidate's, the result is 0. The candidate then loses although it is lexicographically greater. `ExtendingValueLosesTie` shows one such pair.
- `NullNode.Listener.Accept` first increments `count` (core/null.c:169). If the params `malloc` then fails, no work is queued and nothing decrements the count again. The contract states this outcome.
- `NullNode.Listener.Connection` returns early when the session cannot be allocated (core/null.c:46-49). That path skips the decrement at line 80. The contract states this too.
- In the backup branch, `NullNode.DoMaintenance` does not update the partner's `lastConnect`. Nothing in core/null.c updates it.

## Findings

| source | as written | input that shows it | evidently intended | confidence | as-written member | corrected member |
|---|---|---|---|---|---|---|
| namesys/publisher.c:139 | the expiry test compares only the nanosecond fields of the clock and the validity; its second disjunct requires equal and greater nanoseconds at once, so it never holds | validity (1001000000 s, 0 ns) against a clock at (1000000000 s, 5 ns) is reported expired; validity (946684800 s, 999999999 ns) against a clock at (1704067200 s, 0 ns) is accepted | expired iff the clock is later than the validity, seconds first and then nanoseconds, the same order the selector uses at line 95; a record whose validity equals the clock exactly is kept valid, a deliberate choice that follows line 95's strict comparison | high; not executed | `Publisher.FutureRecordReportedExpired` (with `Publisher.ValidateRecord`, `Publisher.PastRecordReportedValid`) | `Publisher.ValidateRecordIntended` |

## Left out

- Sockets, `select`/`accept`, the 25-worker thread pool, `pthread` concurrency on the shared `count`, and the `null_shutting_down` flag with `ipfs_null_shutdown` are OS I/O and concurrency. The listener is modelled as a sequential object. Each `Accept`, `Tick` and `Connection` call is one event.
- `ipfs_null_listen`: only the admission counter and the cursor are modelled. Binding the socket (and its failure return), the alternation between accept and tick, and the shutdown exit are not.
- The value of `CONNECTIONS` is set in a header that is not part of this model. It is the `connections` parameter of `Listener`.
- `NullNode.Listener.Tick` requires a non-empty peer list, because core/null.c:187 dereferences the cursor before its NULL check. The peer list is fixed for the listener's lifetime.
- `ipfs_null_connection`: session setup (stream, datastore, filestore, host, port) and the frees are not modelled. Multistream negotiation, the stream read and `libp2p_protocol_marshal` are given per pass as a `Round`.
- `NullNode.Listener.Connection` and `NullNode.ServeSession`: only connections whose loop ends are modelled. The script of passes must contain a stopping pass. A connection that never ends is a call that never returns.
- `NullNode.DoMaintenance`: `libp2p_peer_connect`, routing `Ping` and `ipfs_journal_sync` are foreign calls. Connect and ping are boolean results. Sync is recorded as called. Whatever connect does to the peer's fields is not modelled.
- `NullNode.DoMaintenance`: the two reads of `os_utils_gmtime()` (core/null.c:99 and 115) are one value, `now`.
- `NullNode.Maintain`, `NullNode.BackupDue` and `NullNode.PingDue`: `now`, `lastConnect`, `last_comm_epoch` and `announce_minutes` are unbounded integers, and the subtractions at core/null.c:99 and 115 and the product at line 96 are exact. The headers that declare the widths of these fields and of `os_utils_gmtime()` are not part of this model. If those types are unsigned, a `last_comm_epoch` later than the clock wraps to a huge difference at line 115, so a connected peer is pinged where the model does nothing. An `announce_minutes * 60` beyond the range of `int` overflows at line 96. Neither case is modelled.
- The RFC 3339 parser `ipfs_util_time_parse_RFC3339` and the protobuf accessors `ipfs_namesys_pb_*` are the oracle `timeOf`. It maps an entry to a parsed `(sec, nsec)` or an error code.
- `ValidityTypeOf` reads an absent tag as EOL, the protobuf default.
- `ipns_selector_func` is left out. It only allocates and delegates to `ipns_select_record`. Its decoding step is commented out (namesys/publisher.c:53). Its `*recs[i]` indexes with the wrong precedence (namesys/publisher.c:49).
- `Publisher.ValidateRecord` takes the decoded entry as input. In the C, the `Unmarshal` call is commented out (namesys/publisher.c:128), so the function always examines a freshly allocated, empty entry.
- `Publisher.SelectRecord`: sequence numbers are unbounded naturals. The C keeps `best_seq` in an `int`. A sequence of 2^31 or more would be truncated there and compared after a signed/unsigned conversion. The header that declares the field's width is not part of this model.
- `Publisher.TypeBytes`: the tag is a 4-byte, little-endian, two's-complement value. This assumes `sizeof(IpnsEntry_ValidityType) == 4` on a little-endian machine, and that `IpnsEntry_ValidityType_EOL`, the tag an absent field defaults to, is 0, so the default tag's bytes are `[0, 0, 0, 0]`. The header that declares the type is not part of this model.
- `Publisher.Datastore.Put`: `datastore_put` is external. Its acceptance is an input. A rejected put is assumed to leave the store unchanged.
- `NullNode.Listener.Accept`: the `malloc(INET_ADDRSTRLEN)` for the address text (core/null.c:176) is unchecked, and a NULL there would make `inet_ntop` write through NULL. The model has no input for that failure and treats the allocation as succeeding.
- `NullNode.Listener`: `count` is tied to the admissions by the invariant `0 <= count <= CONNECTIONS`. Which queued params belong to which admission is not tracked, so `Connection` requires only that the count is positive.
- `NullNode.Listener.Connection` does not read the connection params or the socket they carry. It models only the count and the number of passes.
- `Publisher.Publish`: `libp2p_utils_vector_new` and `libp2p_utils_vector_add` are unchecked in the C. They are modelled as always succeeding. The provider store argument of the send is not modelled.
- Memory freeing and logging are not modelled.
