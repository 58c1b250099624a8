# RustiCache, verified

A Dafny model of RustiCache, a sharded in-memory cache that speaks RESP, replicates
from a master to replicas and routes keys by cluster hash slot. `dafny verify
dfyconfig.toml` checks the whole project.

## What is modelled

- **Wire protocol.** `Resp` holds parser and serializer as functions, `RespBuffer` the
  code that works on a mutable buffer. `RespLocality` shows that partial input never
  misleads the parser, `RoundTrip` when a value survives the wire, `RespLimits` when
  the length sum fits 64 bits. `Text` says what text and numbers are, `Grammar` what a
  frame is. `Commands` decodes commands, `Decoding` says what clients may send, and
  `Replies` is the reply to an unknown command.
- **Streams.** `Framing` and `FramingFaults` say what a replica and a client connection
  make of a stream that arrives in arbitrary pieces. `Sessions` and `Handshake` are the
  loops themselves, `HandshakeGrammar` what a master must send, `Control` the frames
  that steer a connection, and `EndToEnd` joins them: handshake, framing, execution.
- **Storage.** `Storage` is the sharded store with its memory counter, eviction and
  purge. `Store` is what a reader sees. `Interleaving` runs the lock sections of the
  store in any order, and `Sections` ties the database object to it. `Eviction` says when sampled eviction is true
  eviction, `Recency` what that means for a history of operations.
- **Replication.** `Execution` writes and propagates. `WriteLog` replays a log.
  `Replication` is the system of one master, its channels and any number of replicas as
  a state machine, `Convergence` says what replicas hold in its reachable states, and
  `ReplicationLimits` gives runs where they differ. `Nodes` shows that the objects
  of a master and of a replica take exactly the steps of that machine, and `Links`
  couples the two.
- **Cluster.** `Crc16` and `CrcDetection` treat the checksum as polynomial division,
  `Slot` the hashtag rule, `Topology` the slot table and CLUSTER SLOTS, `Placement`
  redirection and where keys can end up. `Bytes` and `Words` are the vocabulary.

## Conditions

- Clocks, key hashes, hash-map iteration order and the cutting of a stream into reads
  are parameters or arbitrary choices; every result holds for all of them.
- A byte is a character below 256. Text is bytes that satisfy the UTF-8 grammar of
  section 4 of RFC 3629. Integers read from the wire have the bounds of `i64`, `isize`
  or `u64`; sizes, counters and times are unbounded. The size of an entry record is 72.
- In the replication state machine a command and its propagation are one action,
  clients write only to the master, and all nodes read one clock. Any node may evict
  any keys at any time. `ReorderHarmlessExactly` says what the first condition leaves
  out. In `Nodes` and `Links` each operation, a purge included, is one step;
  `Interleaving` and `Sections` are about its parts.
- `Placement` starts with no keys, and topology changes by CLUSTER MEET and ADDSLOTS.

## Where a promise has an exact limit

- A value whose text holds CRLF does not survive the wire, and an error comes back with
  "ERR " in front: `RoundTripExactly`. The server does send such texts:
  `UnknownReplyExactly`, `ReplySplits`.
- After a protocol error a connection empties its buffer, so which later frames it sees
  can depend on how the stream was cut: `CutsAgreeExactly`, `CutsMayDisagree`.
- One bulk header makes the length sum exceed 64 bits: `BulkLengthFits`,
  `BulkLengthMayOverflow`.
- A purge removes by name what it sampled under an earlier lock. It can remove a key
  that was set anew and discount the old size: `PurgeRace`, with the exact conditions in
  `PurgeUnseenExactly` and `CounterIsExactUpToDrift`.
- The master sends an empty snapshot, so a replica lacks keys from before it
  registered until they are written again: `LiveKeysReplicate`, `ConvergesExactly`,
  with the run in `SnapshotMissesKey`.
- A relative PX expiry is counted from execution on each node, so a replica can show
  a key that has expired on its master: `ReplicaKeysExactly`, with the run in `StaleKey`.
- An eviction is not propagated, and neither is a DEL of an evicted key, so memory
  limits let a replica differ from its master: `ConvergesExactly`, with the run in
  `EvictedKeyStays`.
- Two writes may be sent in another order than they were applied:
  `ReorderHarmlessExactly`, with an example in `SentInReverse`.
- Eviction looks at five entries of each shard, and finds the least recently used for
  certain only in the stores of `EvictsLeastExactly`; `YoungerEvicted` is another.
- A replica that drops a malformed byte waits for the next read even with complete
  frames in its buffer: `CatchesUpExactly`, `FrameWaits`.
- A node records no slot for another node, so it never sends MOVED: `NeverRedirects`.

Where the repository's documentation says otherwise, the model follows the code. The
documentation has a replica load the keys of the snapshot and attempt a partial resync
(README.md:116-118); the code drops the payload and always asks for a full resync. It
has a node answer MOVED for slots of its peers (README.md:217); the server never assigns
a slot to a peer. It gives the CLUSTERDOWN text as "Hash slot not served"
(README.md:219); the code sends "The cluster is down".

## Model

| member | source | states |
|---|---|---|
| RespLocality.ParseExtends | src/protocol/resp.rs:96-240 | A decision (frame or error) taken on some bytes stands whatever bytes arrive after them |
| RespLocality.ParseTruncates | src/protocol/resp.rs:96-240 | A frame is still found, unchanged, when everything behind its last byte is cut off |
| RespLocality.FrameIsLocal | src/protocol/resp.rs:96-240 | The frame found depends on exactly the bytes it consumes |
| RespLocality.PrefixNeedsMore | src/protocol/resp.rs:122-240 | Every proper prefix of a frame asks for more data: never an error, never a shorter frame |
| RespLocality.ParseProgress | src/protocol/resp.rs:96-240 | A frame consumes at least three bytes per value node it yields, so accepted values are bounded by the input |
| Grammar.ParseExactly | src/protocol/resp.rs:96-240 | The parser finds a frame exactly where the grammar of the wire format has one: the value and the bytes are related by the grammar, numbers in any notation included |
| Grammar.ErrorsExactly | src/protocol/resp.rs:96-240 | The parser fails exactly on bytes that can no longer become a value: an unknown prefix, a complete first line that is wrong, a length below -1, a missing closing CRLF, or a malformed element behind good ones |
| Text.Utf8Exactly | src/protocol/resp.rs:131-153 | The text check accepts exactly the UTF-8 encodings of sequences of Unicode scalar values |
| Text.IntegerExactly | src/protocol/resp.rs:155-165 | Integers are read from exactly the signed decimal numerals whose value fits 64 bits, leading zeros included |
| Text.UnsignedExactly | src/commands/mod.rs:121 | Unsigned integers are read from exactly the numerals without a minus sign up to the maximum |
| Text.DecimalShortest | src/protocol/resp.rs:67-71 | Printing gives the shortest numeral of the value |
| RespLimits.BulkLengthFits | src/protocol/resp.rs:187-191 | The required-length sum of a bulk string fits 64 bits, except for the one header where both the header length and the announced length are the largest isize |
| RespLimits.BulkLengthMayOverflow | src/protocol/resp.rs:187-191 | That header exists: a zero-padded header for which the sum exceeds 64 bits |
| RoundTrip.RoundTrip | src/protocol/resp.rs:55-109 | Parsing a serialized value, with anything behind it, gives the value back (errors with their added prefix) and consumes exactly its bytes |
| RoundTrip.RoundTripExactly | src/protocol/resp.rs:55-109 | When this holds, both directions: exactly if no text holds CRLF; and the value comes back unchanged exactly if in addition it holds no error |
| RoundTrip.ParsedIsClean | src/protocol/resp.rs:131-240 | Everything the parser yields is in the domain of the round trip |
| Replies.UnknownReplyExactly | src/connection.rs:163-168 | The error reply to an unknown command reads back as one error quoting the name if and only if the name holds no CRLF |
| Replies.ReplySplits | src/connection.rs:163-168 | For a name with CRLF the client takes the first half of the reply for all of it and is left with the second half |
| Bytes.DecimalRoundTrip | src/protocol/resp.rs:155-165 | Printing an integer and reading it back is the identity |
| RespBuffer.GetLine | src/protocol/resp.rs:122-129 | The loop finds the first CRLF of the buffer, or none when there is none |
| RespBuffer.ReadText | src/protocol/resp.rs:131-153 | On the mutable buffer: answers as the parse function does; the buffer loses exactly the frame, and nothing if more data is needed |
| RespBuffer.ReadInteger | src/protocol/resp.rs:155-165 | The same for integers |
| RespBuffer.ReadBulk | src/protocol/resp.rs:167-202 | The same for bulk strings, including the buffer left behind by the missing-CRLF error |
| RespBuffer.ReadItems | src/protocol/resp.rs:228-234 | The element loop yields all elements, or stops at the first incomplete or malformed one; what it used is what is gone from the cursor |
| RespBuffer.ReadArray | src/protocol/resp.rs:204-240 | An array is taken from the buffer as a whole or not at all, through a cloned cursor |
| RespBuffer.Read | src/protocol/resp.rs:96-109 | The whole parser on a mutable buffer refines the parse function |
| RespBuffer.Write | src/protocol/resp.rs:55-94 | Serializing appends the encoding and leaves what was in the buffer |
| Commands.ReadSetOptions | src/commands/mod.rs:115-127 | The last PX option that has a text behind it decides the expiry, even if that text is not a number; every second PX in a row is an argument and not an option; without a PX option there is no expiry |
| Commands.SetOptionsMeans | src/commands/mod.rs:115-127 | The same of the decoder function, from any option position on |
| Commands.SetDecodes | src/commands/mod.rs:102-134 | An encoded SET, with or without PX and with name and option in any case, decodes to the same key, value and expiry |
| Bytes.CaseForgotten | src/commands/mod.rs:68-71 | Upper-casing forgets the case of ASCII letters, letter by letter, and nothing else |
| Decoding.NamesAlike | src/commands/mod.rs:68-71 | Two frames with the same arguments whose names differ only in the case of ASCII letters decode alike |
| Decoding.GetDecodes | src/commands/mod.rs:92-101 | GET in any case, with its key as a simple or bulk string |
| Decoding.SetMeans | src/commands/mod.rs:102-134 | SET takes any bulk string or the text of a simple string as its value, nothing else, and the last PX option decides |
| Decoding.PxSpelt | src/commands/mod.rs:118-119 | The option is PX in any case and no other text |
| Decoding.ListsDecode | src/commands/mod.rs:135-173 | DEL, EXISTS and REPLCONF take the texts among their arguments |
| Decoding.TextsOne | src/commands/mod.rs:139-142 | An argument counts exactly if it is a text |
| Decoding.PsyncDecodes | src/commands/mod.rs:174-178 | PSYNC takes id and offset, or their defaults where they are missing or no text |
| Decoding.AuthDecodes | src/commands/mod.rs:179-193 | AUTH with a password, with user and password, and with nothing |
| Decoding.OptionalText | src/commands/mod.rs:74-166 | PING, INFO and KEYS with and without their text, and ECHO |
| Decoding.BareDecodes | src/commands/mod.rs:240-241 | QUIT and COMMAND look at nothing but their name |
| Decoding.MeetDecodes | src/commands/mod.rs:214-224 | CLUSTER MEET takes address and port |
| Decoding.AddSlotsDecodes | src/commands/mod.rs:225-236 | CLUSTER ADDSLOTS takes all its slots in order |
| Decoding.BadSlotFails | src/commands/mod.rs:225-236 | One argument of ADDSLOTS that is no 16-bit number makes the whole command an error |
| Decoding.ClusterQueries | src/commands/mod.rs:204-213 | The CLUSTER subcommands that ask |
| Decoding.ClusterErrors | src/commands/mod.rs:194-236 | What a CLUSTER command can lack, and the error for it |
| Decoding.TooFew | src/commands/mod.rs:82-198 | The commands that need arguments fail without them |
| Decoding.NotText | src/commands/mod.rs:58-112 | A key or name that is no text, and a frame that is no command |
| Decoding.UnknownExactly | src/commands/mod.rs:242 | A command is unknown if and only if its name spells none of the fourteen |
| Decoding.UnknownSubExactly | src/commands/mod.rs:237 | A CLUSTER subcommand is unknown if and only if it spells none of the six |
| Commands.DelDecodes | src/commands/mod.rs:135-144 | An encoded DEL, its name in any case, decodes to the same keys in the same order |
| Framing.FeedFollowsRun | src/replication/replica.rs:109-185 | Over any cutting of the stream into reads: the events so far, followed by those of a run on the bytes left, are the events of one run over the whole stream |
| Framing.FeedConserves | src/replication/replica.rs:109-185 | Every byte received is in exactly one place: an event, in order, or the buffer |
| Framing.FeedCatchesUp | src/replication/replica.rs:109-185 | If the stream holds no malformed frame, the replica has handled all its complete frames after the last read, however it was cut |
| Framing.CatchesUpExactly | src/replication/replica.rs:161-183 | With malformed bytes: what a buffer asks for is all done after some further reads, whatever they bring, if and only if these are as many as bytes have to be dropped in it, less one when nothing follows the last of these |
| Framing.FrameWaits | src/replication/replica.rs:161-166 | The stall: a complete frame behind one stray byte stays buffered until another read |
| Framing.ServeConserves | src/connection.rs:84-185 | Frames handed on and bytes kept partition the buffer in order; after a protocol error the buffer is empty |
| Framing.HandedAreFrames | src/connection.rs:84-92 | The raw bytes handed on with a value are exactly its frame, so what is propagated decodes to what was executed |
| Framing.ServeExtends | src/connection.rs:84-185 | Serving a longer buffer equals serving the first part and then what it left |
| Framing.SessionIgnoresCuts | src/connection.rs:63-185 | The frames a client connection hands on do not depend on how the stream is cut into reads, up to the first protocol error |
| Framing.ShortStreamFits | src/connection.rs:70-78 | A stream no longer than the payload limit never trips the limit |
| FramingFaults.CutsAgreeExactly | src/connection.rs:175-183 | All cuttings of a stream give the same frames if and only if no tail of it behind the point where a protocol error shows can yield a frame |
| FramingFaults.CutsMayDisagree | src/connection.rs:175-183 | A stream (an unknown prefix byte, then PING) whose frames depend on the cutting |
| Sessions.PerformMeans | src/replication/replica.rs:121-155 | Byte offset, acknowledgements and executed commands of a sequence of events: the offset is the length of the frames taken, a GETACK acknowledges the offset including itself, everything else that decodes runs once, in order |
| Sessions.ReplicaStream.Dispatch | src/replication/replica.rs:121-155 | One frame updates offset, acknowledgements and executed commands as specified |
| Sessions.ReplicaStream.DrainBuffer | src/replication/replica.rs:111-168 | The inner loop handles exactly the frames of the buffer up to the first incomplete or malformed one |
| Sessions.ReplicaStream.Follow | src/replication/replica.rs:109-185 | The outer loop, over any sequence of reads, refines the event specification |
| Sessions.FollowMeans | src/replication/replica.rs:107-185 | Offset, skipped bytes and buffered bytes add up to the bytes received; executed commands and acknowledgements are a prefix of those of the uncut stream |
| Sessions.Connection.OnRead | src/connection.rs:63-190 | One read: payload limit, frames handed on, bytes kept, and closing exactly on QUIT or excess |
| Sessions.Connection.Handle | src/connection.rs:53-190 | The connection loop hands on the frames of the specified session, keeps its bytes, and closes exactly on QUIT or excess |
| Control.QuitExactly | src/connection.rs:108-115 | The frames that close a connection are exactly those that spell QUIT |
| Control.QuitCloses | src/connection.rs:108-115 | A QUIT frame is handed on and closes the connection, and what is behind it stays unread |
| Control.LimitExactly | src/connection.rs:70-78 | A buffer is refused if and only if it is longer than the limit |
| Control.GetAckExactly | src/replication/replica.rs:122-123 | The frames that are acknowledged are exactly those that spell REPLCONF with GETACK as their first text |
| Control.GetAckAnswered | src/replication/replica.rs:122-140 | A GETACK anywhere in a stream is acknowledged with the number of bytes up to its end |
| Control.AckReads | src/replication/replica.rs:130-136 | A master reads the acknowledgement as one REPLCONF ACK with the offset |
| Control.PsyncReads | src/replication/replica.rs:87-89 | A master reads the last request of the handshake as PSYNC from the start |
| Handshake.ReadSimpleResponse | src/replication/replica.rs:188-207 | Skips exactly one line of the stream, and fails exactly when the stream ends before its CRLF |
| Handshake.ReadFullResync | src/replication/replica.rs:209-241 | Skips exactly one FULLRESYNC line, and fails exactly when there is none |
| Handshake.ReadRdb | src/replication/replica.rs:243-284 | Skips exactly the header and the announced number of payload bytes, and fails exactly when the stream holds no such snapshot |
| Handshake.Run | src/replication/replica.rs:33-102 | The whole handshake, over any cutting into reads, leaves exactly the rest of the stream, none lost and none read twice |
| Handshake.HandshakeLands | src/connection.rs:94-103 | On what a master sends, the handshake succeeds and ends exactly at the first byte of the command stream |
| HandshakeGrammar.HandshakeExactly | src/replication/replica.rs:33-102 | The handshake succeeds exactly on a line for each request, a FULLRESYNC line and a snapshot of the announced length, and leaves exactly what follows |
| EndToEnd.RunReplica | src/replication/replica.rs:12-186 | Handshake and command loop together, over any cutting: the final state is that of the events of the stream behind the handshake; with no malformed frame, of all of them |
| EndToEnd.ReplicaExecutesTheLog | src/replication/replica.rs:107-168 | Fed by a master, a replica executes exactly the commands of the propagated log, once each and in order, and its offset is the length of the log |
| EndToEnd.PipelineDecodes | src/protocol/resp.rs:55-109 | A pipeline of serialized values, cut in any way, is decoded to exactly those values |
| Store.TrimmedUnseen | src/storage/entry.rs:23-29 | A store that lacks only expired keys of another shows the same live keys and values, now and at every later time |
| Store.TrimmedApply | src/storage/db.rs:71-97 | SET and DEL keep that relation, so cleanup can be ignored in every run |
| Storage.MaskIsMod | src/storage/db.rs:38-43 | Masking with a power of two minus one is the remainder, for every hash |
| Storage.Db.constructor | src/storage/db.rs:24-36 | The shard count is the least power of two not below the request, and the store is empty |
| Storage.Db.Get | src/storage/db.rs:45-69 | The stored value if not expired; an expired entry is removed and discounted; the counter stays the sum of sizes |
| Storage.Db.Set | src/storage/db.rs:71-86 | The key holds the value, the expiry, the time of the SET and its size; every other entry is kept unchanged or evicted, only as many as needed and, with small shards, none younger than a kept one; the counter is below limit plus the new entry |
| Storage.RoomLeft | src/storage/db.rs:156-182 | Nothing is evicted if and only if there is no limit or the store is below it |
| Storage.Db.Del | src/storage/db.rs:88-97 | Removes the key, reports whether it was stored, keeps the counter exact |
| Storage.Db.Exists | src/storage/db.rs:99-101 | True exactly for live keys |
| Storage.Db.Keys | src/storage/db.rs:103-115 | Lists every live key of the sharded store exactly once |
| Storage.Db.SampleExpired | src/storage/db.rs:127-140 | Finds exactly the expired entries of a sample of the shard, with their sizes |
| Storage.Db.PurgeExpiredSample | src/storage/db.rs:122-154 | From a sample of every shard exactly the expired entries go; the count is theirs, the counter stays exact, and readers see no difference; nothing expired remains if no shard exceeds the sample size |
| Storage.Db.FindVictim | src/storage/db.rs:159-169 | The victim is the least recently used of up to five entries of each shard |
| Storage.SureVictim | src/storage/db.rs:159-174 | If some shard holds a least recently used entry and fewer than five others, the victim is least recently used whatever the maps yield |
| Eviction.EvictsLeastExactly | src/storage/db.rs:159-174 | On a store that holds anything, every choice of samples gives a least recently used victim if and only if there is such a shard |
| Eviction.DbEvictsLeastExactly | src/storage/db.rs:156-174 | The same in terms of the contents of the database |
| Eviction.YoungerEvicted | src/storage/db.rs:159-174 | A store of six entries whose oldest stays while a younger one is the victim |
| Storage.Db.EvictOne | src/storage/db.rs:158-180 | An over-full store always has a victim, evicting it lowers the counter by its size, and it is least recently used whenever the exact condition holds |
| Storage.Db.EnsureMemoryCapacity | src/storage/db.rs:156-182 | Ends below the limit without evicting more than needed; with at most five entries in every shard no evicted entry is younger than a kept one |
| Recency.TrackedDb.Set | src/storage/db.rs:71-86 | Over any operations: with at most five entries in every shard a SET evicts no key that was set or read later than a key it keeps, and it counts as a use |
| Recency.TrackedDb.Get | src/storage/db.rs:45-57 | A GET that finds its key counts as a use, and no other does |
| Interleaving.StepGap | src/storage/db.rs:60-97 | Each lock section keeps counter minus sum of sizes, except a purge, which changes it by the size differences of entries replaced since sampling |
| Interleaving.CounterIsExactUpToDrift | src/storage/db.rs:60-180 | Over every interleaving of lock sections, the counter is the sum of sizes plus the accumulated purge drift, and exact if and only if that is zero |
| Interleaving.CleanRunsCountExactly | src/storage/db.rs:122-154 | If no purge meets an entry whose size changed since sampling, the counter is exact and never negative in every reachable state |
| Interleaving.PurgeUnseenExactly | src/storage/db.rs:142-150 | The removal half of a purge is unseen by readers if and only if every sampled key still stored is still expired |
| Interleaving.PurgeRace | src/storage/db.rs:126-150 | A run in which a SET between the halves of a purge loses its live key and leaves the counter of the empty store at the size difference |
| Storage.Db.RemoveSampled | src/storage/db.rs:142-150 | The write section of a purge, whatever happened since its read section: the sampled keys still there go, and the sampled sizes are subtracted |
| Sections.SharedDb.Touch | src/storage/db.rs:47-57 | The first locked section of a read of the database object is a step of the interleaving model, and reads exactly the live value |
| Sections.SharedDb.LazyRemove | src/storage/db.rs:59-68 | So is its second section |
| Sections.SharedDb.Insert | src/storage/db.rs:80-85 | So is the section of SET |
| Sections.SharedDb.Remove | src/storage/db.rs:88-97 | So is the section of DEL and of an eviction |
| Sections.SharedDb.Sample | src/storage/db.rs:127-140 | So is the read section of a purge |
| Sections.SharedDb.Purge | src/storage/db.rs:142-150 | So is its write section, at any later time |
| Sections.SharedDb.Counter | src/storage/db.rs:11-17 | After any interleaving of these sections the counter of the database object is the sum of its entry sizes plus the drift of the purges, and exact if and only if that is zero |
| Execution.ReplicationState.RegisterDownstream | src/replication/state.rs:90-93 | A new channel starts at the present end of the log |
| Execution.ReplicationState.PropagateDownstream | src/replication/state.rs:95-100 | The log and every open channel grow by the same bytes, the offset by their length, and closed channels are dropped |
| Execution.ReplicationState.ChannelIsLogSuffix | src/replication/state.rs:95-100 | In every valid state a channel has carried exactly the log since its registration, and the offset counts it |
| Execution.ExecuteSet | src/commands/mod.rs:293-304 | The key is set, with its expiry and the time of access; every other entry is kept unchanged or evicted, only as many as needed; and every open channel gets the command exactly on a master |
| Execution.ExecuteDel | src/commands/mod.rs:305-318 | DEL has its specified effect, counts the distinct keys removed, and is logged exactly if one was removed on a master |
| WriteLog.ReplayForgets | src/commands/mod.rs:293-318 | What a log leaves at a key it touches does not depend on the store it started from |
| WriteLog.ReplayLags | src/commands/mod.rs:293-295 | Replaying a log up to a lag later gives the same keys and values, with expiries later by at most the lag |
| WriteLog.RaceHarmlessExactly | src/commands/mod.rs:293-301 | Two writes may be sent in the other order than they were applied without effect, on all stores, if and only if they touch different keys or write the same |
| WriteLog.SameReplayExactly | src/commands/mod.rs:293-318 | Two logs have the same effect on every store if and only if they leave the same at every key |
| WriteLog.ReorderHarmlessExactly | src/commands/mod.rs:293-316 | Any number of writes sent in another order than they were applied have the same effect on every store if and only if at every key the last write of both orders has the same effect |
| WriteLog.SentInReverse | src/commands/mod.rs:293-301 | Two SETs of one key sent in reverse leave the overwritten value |
| Replication.TakesNextEntry | src/replication/replica.rs:111-168 | In every good state, what a replica parses next is exactly the next entry of the log |
| Replication.StepKeeps | src/replication/replica.rs:107-185 | Every action of master, network and replicas keeps the replication invariant |
| Replication.RunKeeps | src/replication/state.rs:90-100 | The invariant holds in every reachable state of any number of replicas |
| Convergence.OffsetsConserve | src/replication/state.rs:95-100 | In every reachable state, the master offset is the log before registration plus what the replica processed, buffers and has on the wire |
| Convergence.DrainedAppliedAll | src/replication/replica.rs:111-156 | A drained replica has applied the whole log since its registration |
| Convergence.LiveKeysReplicate | src/connection.rs:94-107 | A key live on the master is live with the same value on a drained replica if and only if it was written after the replica registered and the replica has not evicted it since |
| Convergence.LastWriteDecides | src/commands/mod.rs:293-295 | At a key touched since registration, master and drained replica show exactly what the last write says, each counting its PX from when it executed it, unless that side has evicted the key since |
| Convergence.ReplicaKeysExactly | src/commands/mod.rs:293-295 | A key live on a drained replica is live and equal on the master if and only if the master has not evicted it and its last write has no deadline or one that has not passed by the master clock |
| Convergence.ReplicaKeysAreFresh | src/commands/mod.rs:293-295 | As a bound: otherwise the master has evicted the key, or it expires on the replica within the replication lag |
| ReplicationLimits.StaleKey | src/commands/mod.rs:293-295 | For every key and delay there is a run in which a drained replica still shows a key whose PX has passed on the master |
| ReplicationLimits.SnapshotMissesKey | src/connection.rs:94-107 | A run in which a drained replica lacks a key that is live on the master |
| ReplicationLimits.EvictedKeyStays | src/storage/db.rs:171-174 | A run in which the master evicts a key that a drained replica keeps, and in which a DEL of the key is not propagated either |
| Convergence.ConvergesExactly | src/connection.rs:94-107 | Without expiries but with any evictions on both sides, a replica always holds the replay of what it took less what it evicted; drained, it equals the master if and only if every key the master held at registration was touched or evicted since, and of the keys last written since, both sides have evicted the same |
| Convergence.DeliveredDrains | src/replication/replica.rs:111-168 | Once all bytes are delivered, as many passes as entries are missing drain the replica |
| Nodes.MasterNode.Execute | src/commands/mod.rs:293-318 | On database, channels and offset together, with any memory limit, a write of a client is an eviction step and the client step of the replication state machine, and evicts nothing without a limit |
| Nodes.MasterNode.Get | src/storage/db.rs:45-69 | A client reads exactly the live value, and the lazy removal is a drop step that nobody can see |
| Nodes.MasterNode.Purge | src/storage/db.rs:122-154 | A purge is a drop step that nobody can see |
| Nodes.MasterNode.Register | src/connection.rs:94-107 | PSYNC is the registration step |
| Nodes.MasterNode.Replicates | src/replication/state.rs:90-100 | In every reachable state of the master object, a channel has carried exactly what its replica processed, buffers and awaits, and without expiries a drained replica holds the contents of the database exactly if nothing is missing |
| Nodes.ReplicaNode.TakeFrame | src/replication/replica.rs:111-167 | One round of the replica loop, on buffer, offset and database together and with any memory limit, is an eviction step and one take step |
| Nodes.ReplicaNode.Pass | src/replication/replica.rs:111-168 | The inner loop is as many take steps as it has rounds, and leaves what the framing specification leaves |
| Links.Link.constructor | src/connection.rs:94-107 | PSYNC couples a replica object with the replica that the run of the master object speaks of |
| Links.Link.Write | src/commands/mod.rs:293-318 | A write to the master object keeps the coupling |
| Links.Link.Arrive | src/replication/replica.rs:170-179 | So does the arrival of any piece of what was sent |
| Links.Link.Work | src/replication/replica.rs:111-168 | So does a round of the replica object, evictions included |
| Links.Link.Purge | src/storage/db.rs:122-154 | So does a purge of the master object |
| Links.Link.Agree | src/replication/replica.rs:107-168 | Of two objects: the channel of the master has carried exactly what the replica has processed, buffers and awaits; without expiries, drained, their databases show the same if and only if nothing is missing |
| Crc16.Compute | src/cluster/slot.rs:41-48 | The table-driven loop computes the remainder of polynomial long division by 0x11021, bit by bit |
| Crc16.TableEntry | src/cluster/slot.rs:5-39 | Each of the 256 table entries is the index, in the high half, stepped eight times |
| Crc16.FoldIsRemainder | src/cluster/slot.rs:41-48 | Byte-wise folding equals long division of the message followed by sixteen zero bits |
| CrcDetection.Crc16Linear | src/cluster/slot.rs:41-48 | The checksum of the exclusive-or of two equally long messages is the exclusive-or of their checksums |
| CrcDetection.ChangeIsDetected | src/cluster/slot.rs:41-48 | Any change within two neighbouring bytes, at any place in any message that holds them, changes the checksum |
| CrcDetection.OneByteChange | src/cluster/slot.rs:41-48 | Any change of one byte, at any place in any message, changes the checksum |
| Slot.KeySlot | src/cluster/slot.rs:65-69 | Computes the specified slot |
| Slot.SlotInRange | src/cluster/slot.rs:65-69 | The masked checksum of the hashtag is its remainder modulo 16384 |
| Slot.TagDecides | src/cluster/slot.rs:50-63 | A nonempty text between the first opening brace and the next closing one is the part that is hashed |
| Slot.TagOf | src/cluster/slot.rs:50-63 | The converse: whenever less than the key is hashed, it is such a text |
| Slot.HashtagIdempotent | src/cluster/slot.rs:50-69 | A hashtag is its own hashtag, so it has the slot of its keys |
| Slot.SameTagSameSlot | src/cluster/slot.rs:50-69 | Keys with the same hashtag share a slot, whatever surrounds the tag |
| Topology.RunsCanonical | src/cluster/topology.rs:192-220 | The ranges are sorted, disjoint, cover exactly the assigned slots with one owner each, and no two can be merged |
| Topology.CanonicalIsUnique | src/cluster/topology.rs:192-220 | They are the only such list |
| Topology.LengthsAddUp | src/cluster/topology.rs:138-220 | The range lengths add up to the number of assigned slots |
| Topology.ClusterTopology.AddSlotsRange | src/cluster/topology.rs:76-99 | Succeeds exactly for a valid range of a known node; then exactly those slots change owner, otherwise nothing changes |
| Topology.ClusterTopology.CountSlots | src/cluster/topology.rs:138-139 | Counts the assigned slots |
| Topology.ClusterTopology.CollectRanges | src/cluster/topology.rs:192-220 | The one-pass loop with its open range computes those ranges |
| Topology.ClusterTopology.FormatClusterSlots | src/cluster/topology.rs:192-239 | The CLUSTER SLOTS reply tells the table: entries of first slot, last slot and address in order, each assigned slot in exactly one of them and no other slot, with the owner of all its slots and the address recorded at the first |
| Topology.AssignLists | src/cluster/topology.rs:87-96 | The slot list of its owner accounts for every assigned slot |
| Placement.DecideExactly | src/connection.rs:117-147 | For every command: GET, SET, and DEL and EXISTS by their first key, are served exactly if this node owns the slot, redirected exactly to the recorded owner, refused exactly if nobody owns it; every other command is served |
| Placement.OneRedirect | src/connection.rs:117-147 | Among nodes that record the same owners, a client that follows MOVED ends after at most one redirect, at the owner of the slot, wherever it starts; it is refused exactly for unassigned slots |
| Placement.CirclesForever | src/connection.rs:132-137 | Two nodes that each record the other as the owner redirect a client without end |
| Placement.StartTopology | src/server.rs:40-56 | Start-up assigns slots to this node only: exactly those of the configured ranges before the first invalid one, and all of them when none are configured |
| Placement.NeverRedirects | src/commands/mod.rs:377-403 | Over every run from such a start, whatever nodes are met, no command is ever redirected: a key is served, or its slot is not owned and gets CLUSTERDOWN |
| Placement.AddSlots | src/commands/mod.rs:392-403 | The ADDSLOTS loop assigns the slots up to the first invalid one, and succeeds exactly if all are valid |
| Placement.AddSlotsExactly | src/commands/mod.rs:392-403 | The node then owns exactly what it owned and the slots before the first invalid one, and every other slot keeps its owner |
| Placement.AddEachGrows | src/cluster/topology.rs:76-99 | Assigning slots to this node never loses one it owns and never lowers the number assigned |
| Placement.KeysStayInOwnedSlots | src/connection.rs:116-162 | Over every interleaving of checking and executing commands with topology changes, every stored key hashes to a slot this node owns |

## Left out

- Sockets, Tokio tasks, select, shutdown, the connection semaphore, write failures and logging.
- Allocation failure and recursion depth in the parser, and overflow of the shard count rounding and of the bus port.
- The atomic counter as a wrapping 64-bit word: it is an integer here, shown exact and non-negative in clean runs.
- The contents of the snapshot, and the replication id a replica takes from the FULLRESYNC line.
- The authenticated flag; the replies to PING, ECHO, EXISTS, KEYS, INFO and COMMAND; patterns in KEYS.
- The text of CLUSTER INFO, CLUSTER NODES and INFO replication, and the start-up slot specification string.
- Error messages as strings: errors are datatype cases, and a failed ADDSLOTS is a boolean.
- Start-up: configuration, the listener and the timer of the purge task.
- Hang-ups in `Nodes` and the replication state machine: a replica once registered stays, as its channel is only dropped by a later send.
- Reads that arrive in a replication stream: a master sends none, and `Nodes.ReplicaNode.TakeFrame` skips them.
- Placement.KeysStayInOwnedSlots: does not cover a topology in which a later ADDSLOTS of another node takes a slot away, because no command of the repository does that.
