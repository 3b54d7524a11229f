# Netless LAN relay: a verified model of the transfer pipeline and the session registry

Netless is a chat relay for a local network. Browsers connect over a secure
WebSocket to a Node server. The server relays JSON chat traffic and fans
binary media transfers out to every open connection. This project models the
core of both sides and proves properties of it.

**Client side (`public/client.js`)**
- `sendBin` cuts a payload into 1 MiB chunks. Each chunk goes out as a
  self-describing frame: a 4-byte big-endian metadata length, the metadata,
  then the slice (module `Chunker`).
- The frame codec is in module `Frame`, and the big-endian length field in
  module `Bytes`.
- `handleBinary` decodes frames and files each payload into a sparse slot
  array of the `msgData` map. It reports progress and completes the transfer
  when the filled-slot count reaches the declared total (module
  `Reassembly`).
- The browser's in-place state is the class `ClientState.Client`: `msgData`,
  the rendered messages that `pruneMessages` trims, and the `isTyping` flag.
  The reaction-map update, the typing-banner filter and the change-only
  typing signal sit beside it.

**Server side (`server.js`)**
- `sendInFragments` sends RFC 6455 fragments: section 5.4 of RFC 6455, at
  most 32 KiB each, FIN on the last (module `Fragmentation`).
- The bounded binary queue holds 5 entries and drops the oldest pending one
  (module `Scheduler`).
- The session registry, the name store, trimming, and the typing aggregate
  are in module `Sessions`.
- The `isAlive` ping/pong heartbeat is in module `Heartbeat`.
- The server itself is the class `Relay.Server`. Its fields are the
  connections, the `clients` map, the name store, `binaryBroadcastQueue`,
  `isProcessingBinary`, and every message handed to a socket, in order. A
  ghost set records every connection it was ever given: each `ws` is a new
  object, so a connection id never comes back. Its methods are the event
  handlers.

Inputs the code takes from its environment are parameters of the model:
- the clock;
- generated names and message ids;
- socket readiness;
- the JSON/UTF-8 metadata codec, as a serialiser/parser pair assumed to undo
  each other on the metadata of the transfer at hand (`Reassembly.CodecInvertsOn`; `Reassembly.CodecExists` shows such a pair exists);
- the `users.json` store, as a map from uid to name.

**Where the code differs from the intended design, the model follows the
code:**
- An empty payload yields zero chunks and zero fragments.
- Reassembly entries are never evicted for staleness.
- Several connections may identify with the same uid; each gets its own
  session.
- There is no admin or authorization logic. `delete` and `reaction` are
  rebroadcast to every open connection, the sender included.

**Behaviours of the code the model states as lemmas:**
- Once a transfer completes, its entry stays with emptied slots. A
  re-delivered single-chunk frame therefore completes the transfer again
  (`Reassembly.RedeliveredSingleChunkCompletesAgain`).
- A chunk index at or past the declared total still counts towards
  completion. The assembled blob then holds the text "undefined" where a
  hole is (`Reassembly.StrayIndexCompletesWithHole`).

## Model

| member | source | states |
|---|---|---|
| Bytes.U32BE | public/client.js:174-175 | `setUint32` writes four bytes |
| Bytes.ReadU32BE | public/client.js:209-210 | `getUint32` yields a value below 2^32 |
| Bytes.ReadWritten | public/client.js:175 | reading a written length gives the length modulo 2^32 (ToUint32), most significant byte first |
| Bytes.WrittenRead | public/client.js:210 | writing a read length reproduces the four bytes |
| Frame.EncodeFrame | public/client.js:173-178 | the frame is the length field, then the metadata, then the slice, at those offsets |
| Frame.DecodeFrame | public/client.js:209-212 | fails exactly on buffers under 4 bytes. Otherwise the buffer is the field, then the metadata, then the payload. The metadata has the declared length when it fits. An overrunning length gives an empty payload (`slice` clamps) |
| Frame.DecodeEncoded | public/client.js:209-212 | decoding a frame built as at lines 173-178 returns its metadata and slice exactly |
| Frame.EncodeDecoded | public/client.js:209-212 | a buffer whose length field fits is exactly the encoding of what it decodes to |
| Frame.OverrunLengthKeepsTail | public/client.js:211-212 | an overrunning length field makes all remaining bytes the metadata, with an empty payload |
| Chunker.TotalChunks | public/client.js:157-158 | `ceil(size / c)`: the fewest `c`-byte slices covering `size` bytes |
| Chunker.Percent | public/client.js:191 | a percentage of `k` out of `n`, within [0, 100] for `k <= n`, and 100 when `k == n` |
| Chunker.ChunksFlatten | public/client.js:161-164 | the chunks concatenated in index order are the payload |
| Chunker.ChunksAreSlices | public/client.js:161-164 | there are `ceil(size / C)` chunks, and chunk `i` is bytes `[i*C, min(i*C+C, size))` |
| Chunker.ChunkSlice | public/client.js:162-164 | `data.slice(start, end)` for chunk `i`: never longer than `C` bytes |
| Chunker.ChunkMetaAt | public/client.js:166-171 | `{...meta, chunkIndex, totalChunks, chunkSize}`: the caller's metadata, an index below the total, and a size of at most `C` |
| Chunker.ChunkFrame | public/client.js:173-178 | the frame is the 4-byte length, the metadata, then at most `C` payload bytes |
| Chunker.SliceLengths | public/client.js:162-164 | every chunk but the last has exactly `C` bytes; the last has between 1 and `C` |
| Chunker.ChunkFrameDecodes | public/client.js:166-178 | chunk `i`'s metadata is the caller's, with `chunkIndex = i`, the shared `totalChunks` and `chunkSize` = the slice length. Its frame decodes to that metadata and slice |
| Chunker.SendBin | public/client.js:154-202 | Nothing is sent on a closed socket. Frame `i` is the frame of chunk `i`, sent only while the socket is open. Sending stops at the first closed check. An empty payload sends no frame and shows no percentage. Shown percentages are at most 100, and the last is 100 when every chunk went out. "Sent" is shown exactly when the socket is open at the start and every chunk went out, since nothing is awaited before the final test |
| Chunker.SentPayloadsRebuildData | public/client.js:157-164 | the payloads of all frames, in order, concatenate to the data |
| Chunker.EmptyPayloadSendsNothing | public/client.js:158-161 | an empty payload has zero chunks; that no frame goes out is stated by `Chunker.SendBin` |
| Reassembly.Store | public/client.js:220 | writes slot `i` and overwrites any previous value. Writing past the end grows the array with holes; other slots keep their values |
| Reassembly.Filled | public/client.js:222 | the count of filled slots is at most the array length |
| Reassembly.Receive | public/client.js:214-237 | Creates the entry on first sight and stores the slice. Completes exactly when the filled count equals `totalChunks`; the payload is then the slots in index order, the slots are emptied, and 100% is reported. Otherwise the slots are the stored array. Other ids and the reactions are untouched |
| Reassembly.ReceiveFrame | public/client.js:207-252 | the message is dropped exactly when the frame is too short or its metadata does not parse, and then `msgData` is unchanged |
| Reassembly.ReportPercent | public/client.js:227 | the received percentage is within [0, 100], and 100 when all chunks are in |
| Reassembly.FilledStore | public/client.js:220-222 | storing adds one to the count exactly when the slot was empty |
| Reassembly.RedeliveryDoesNotCount | public/client.js:220-222 | re-delivering an index never changes the count; the last write wins |
| Reassembly.FullHasNoHole | public/client.js:222 | a slot array whose count equals its length has no hole |
| Reassembly.AssembleFull | public/client.js:233 | all-filled slots assemble to their payloads in index order |
| Reassembly.Assemble | public/client.js:233 | `new Blob(entry.chunks)`: no slots give an empty blob, and one slot gives that slot's bytes ("undefined" for a hole) |
| Reassembly.CompletionReportsHundred | public/client.js:226-229 | the completing chunk always reports, inside the 150 ms window too, and reports 100% |
| Reassembly.ReportWithinBounds | public/client.js:226-228 | while indices stay below the total, a reported percentage is within [0, 100] |
| Reassembly.RedeliveredSingleChunkCompletesAgain | public/client.js:215-237 | a completed single-chunk transfer delivered again completes again |
| Reassembly.StrayIndexCompletesWithHole | public/client.js:220-233 | with a total of 2, chunks 0 and 2 complete the transfer with "undefined" in place of chunk 1 |
| Reassembly.CodecExists | public/client.js:173 | the per-transfer codec assumption `CodecInvertsOn` can be met by a serialiser/parser pair for any transfer of fewer than 2^32 chunks |
| Reassembly.ReceiveChunkFrame | public/client.js:209-214 | a frame built by `sendBin` is received as exactly its metadata and slice, when the codec inverts on that transfer's metadata |
| Reassembly.PartialDelivery | public/client.js:215-222 | after `k` distinct chunks in any order, the slots hold exactly those chunks and the count is `k` |
| Reassembly.AnyOrderReassembles | public/client.js:207-237 | In any arrival order, every frame but the last of a transfer leaves it incomplete. The last completes it with the original payload and reports 100% |
| Reassembly.FullPayload | public/client.js:233 | slots holding only the transfer's chunks, all counted, assemble to the payload |
| ClientState.Without | public/client.js:379 | the filtered list no longer holds the removed value and is no longer than the input |
| ClientState.WithoutCounts | public/client.js:379 | filtering keeps every other element as often as it occurred |
| ClientState.React | public/client.js:379 | Afterwards the reactor appears once under the given symbol and under no other. The symbol's list is created if absent; no other key is added |
| ClientState.ReactKeepsOthers | public/client.js:379 | every other reactor's entries, in every list, are unchanged |
| ClientState.Cleared | public/client.js:379 | the `for...in` filter: the same symbols, none of whose lists still holds the reactor, none grown |
| ClientState.ReactIdempotent | public/client.js:379 | reacting twice with the same symbol equals reacting once |
| ClientState.OthersTyping | public/client.js:118-122 | the banner lists every typing user except oneself, each as often as the server sent it |
| ClientState.TypingSignal | public/client.js:383 | `handleTyping` sends only the new flag, never the one already sent, and nothing while the socket is not open |
| ClientState.SignalsAlternate | public/client.js:383 | The `typing` messages sent alternate, and the first differs from the start flag. The last message sent equals the current state |
| ClientState.Prune | public/client.js:254-257 | keeps the newest `min(count, MAX_DOM_MESSAGES)` messages, in order |
| ClientState.PrunedIds | public/client.js:257-262 | the ids whose `msgData` entries are deleted are rendered ones, and none while the limit is not exceeded |
| ClientState.Client.constructor | public/client.js:6-19 | empty `msgData`, no message shown, not typing, and a limit of 40 or 300 |
| ClientState.Client.HandleBinary | public/client.js:207-252 | The outcome and `msgData` are `ReceiveFrame`'s. On completion the message is rendered if absent and the page is pruned, with the pruned messages' entries deleted. Otherwise nothing else changes |
| ClientState.Client.Accept | public/client.js:214-237 | the in-place updates of `msgData` equal `Receive` |
| ClientState.Client.PruneMessages | public/client.js:254-265 | the oldest messages beyond the limit are removed together with their `msgData` entries |
| ClientState.Client.UpdateReaction | public/client.js:379 | nothing happens for an unknown message id. Otherwise only that entry's reactions change, and they become `React(...)` |
| ClientState.Client.ClearReactor | public/client.js:379 | the `for...in` loop leaves every list filtered of the reactor |
| ClientState.Client.HandleTyping | public/client.js:383 | the flag becomes `t`, and a message is sent exactly when the flag changed and the socket is open |
| Fragmentation.FragmentData | server.js:77-79 | a fragment holds at most `FRAGMENT_SIZE` bytes, exactly that many when it does not reach the end, and none only at the end |
| Fragmentation.Cut | server.js:77-90 | `k` fragments, each carrying `fin` by the test of line 78 |
| Fragmentation.SendInFragments | server.js:76-95 | sends `ceil(size / FRAGMENT_SIZE)` fragments, as `Cut` defines them; joined, they are the buffer |
| Fragmentation.CutJoined | server.js:77-79 | the first `k` fragments joined are the first `min(k*F, size)` bytes |
| Fragmentation.CutAt | server.js:77-79 | fragment `i` is the slice at `i*F`, and carries `fin` exactly when it reaches the end |
| Fragmentation.Fragmented | server.js:77-90 | every fragment holds 1 to `F` bytes, every one but the last exactly `F`, and `fin` is on the last only |
| Fragmentation.CountIsCeiling | server.js:77 | the number of loop iterations is `ceil(size / F)`; an empty buffer sends nothing |
| Scheduler.Enqueue | server.js:113-115 | The queue holds at most 5 after the push. The newest job is kept, and the only job lost is the oldest pending one |
| Scheduler.NewestKept | server.js:113-116 | any run of enqueues keeps exactly the newest `min(5, total)` jobs, in arrival order |
| Sessions.Put | server.js:138 | `clients.set`: a present key keeps its place in iteration order, and a new key goes last |
| Sessions.Remove | server.js:182 | the order without the connection: exactly the other connections remain, distinct when they were |
| Sessions.RemoveAbsent | server.js:182 | removing a connection that is not in the order leaves the order unchanged |
| Sessions.RemoveAt | server.js:182 | removing the connection at position `k` closes the gap and keeps every other connection in its order |
| Sessions.Drop | server.js:182 | `clients.delete`: the session is gone and the registry stays well formed |
| Sessions.TypingNames | server.js:189 | the aggregate has at most one name per registered connection |
| Sessions.TypingNamesMembers | server.js:189 | a name is in the aggregate exactly when some registered session with that name has its flag set |
| Sessions.TypingUsers | server.js:189 | `clients.values().filter(c => c.isTyping).map(c => c.username)`: at most one name per session |
| Sessions.ClearingTypingIsLeaving | server.js:147-148 | Clearing the sender's flag on chat and deleting its session on close (lines 178-183) give the same aggregate. Either way the sender is out of it |
| Sessions.TrimStart | server.js:162 | drops exactly the leading white space |
| Sessions.TrimEnd | server.js:162 | drops exactly the trailing white space |
| Sessions.Trim | server.js:162 | the result is empty or starts and ends with non-white space |
| Sessions.AsciiWhitespace | server.js:162 | `IsJsWhitespace`, the white space `trim` drops, is among ASCII characters exactly space, tab, LF, CR, VT and FF |
| Sessions.TrimKeepsRun | server.js:162 | `trim` keeps one contiguous run of the input, with only white space around it |
| Sessions.RenameTarget | server.js:162 | the first `min(15, length)` characters of the trimmed name |
| Sessions.IdentifyName | server.js:132-137 | A uid with no stored name, or an empty one, gets the generated name, which is stored. Any other uid keeps its stored name and leaves the store alone |
| Sessions.NameStable | server.js:132-137 | identifying the same uid again reuses the settled name, whatever name would have been generated |
| Sessions.RenamePersists | server.js:163-166 | a rename that went through is the name the next `identify` for that uid gets |
| Heartbeat.AfterTick | server.js:211-214 | A tick terminates a socket whose flag is clear. Otherwise it clears the flag and pings |
| Heartbeat.AfterPong | server.js:121 | a pong sets the flag and does not reopen a terminated socket |
| Heartbeat.HeartbeatVerdict | server.js:210-215 | A connection is terminated exactly when two ticks passed with no pong between them. `isAlive` is clear exactly when the last tick has had no pong yet |
| Relay.TargetsMembers | server.js:198 | the targets are exactly the open connections other than the excluded one |
| Relay.TargetsDistinct | server.js:198 | no connection is a target twice |
| Relay.Targets | server.js:198 | the target list of `broadcast` (and of `processBinaryQueue`, server.js:102): at most one entry per connection, members stated by `Relay.TargetsMembers` |
| Relay.FanoutAt | server.js:200-205 | the `i`th delivery of a broadcast goes to the `i`th target, one per target |
| Relay.PingsMembers | server.js:211-214 | a tick pings exactly the connections whose flag was set |
| Relay.Pings | server.js:210-215 | the pings of one tick: at most one per connection, members stated by `Relay.PingsMembers` |
| Relay.Server.constructor | server.js:68-70 | no connection or session, an empty queue, and not processing |
| Relay.Server.Connect | server.js:119-120 | a new connection is alive and last in iteration order. It is a connection never seen before, so it is no target of the job in flight |
| Relay.Server.OnPong | server.js:121 | a pong sets the flag of its own open connection only |
| Relay.Server.Tick | server.js:210-216 | every connection takes one heartbeat step, and the live ones are pinged in order |
| Relay.Server.TickAll | server.js:211-215 | the `forEach` loop gives each connection `AfterTick` of its old state and pings in order |
| Relay.Server.Broadcast | server.js:196-208 | one copy to each open connection except the excluded one, in order |
| Relay.Server.Send | server.js:139 | `ws.send` on one socket (also server.js:169): one message appended to what that socket was handed |
| Relay.Server.BroadcastTypingStatus | server.js:188-191 | broadcasts the aggregate of the current registry to every open connection |
| Relay.Server.ProcessBinaryQueue | server.js:97-111 | Does nothing while a job is in flight. Otherwise the oldest job leaves the queue, addressed to every open connection, the sender included. With no open connection, the pending jobs leave the queue unsent |
| Relay.Server.OnBinary | server.js:124-126 | The frame is queued under the bound of 5, and the queue is served. A job in flight is never evicted |
| Relay.Server.SendInFragmentsTo | server.js:76-95 | the socket gets the fragments of `sendInFragments`, in order |
| Relay.Server.DrainStep | server.js:104-107 | the next target gets every fragment of the job, or nothing if it has closed, and the loop moves on |
| Relay.Server.Advance | server.js:104-110 | after the last target the flag clears and the queue is served again |
| Relay.Server.OnIdentify | server.js:131-141 | The name is settled through the store and the session registered with the flag clear. The name is confirmed to the sender and announced to the others |
| Relay.Server.OnChat | server.js:147-156 | The sender's flag clears and the aggregate goes out. Then the message goes to everyone, the sender included, under the sender's name |
| Relay.Server.OnTyping | server.js:157-159 | sets the sender's flag and broadcasts the new aggregate |
| Relay.Server.OnRename | server.js:160-171 | Nothing happens when the trimmed, capped name is empty or the current name. Otherwise the session and the store change and the announcements go out |
| Relay.Server.ApplyRename | server.js:163-169 | only this session's name and its uid's stored name change |
| Relay.Server.AnnounceRename | server.js:167-169 | the announcement to all, then the confirmation to the sender, then the aggregate |
| Relay.Server.OnText | server.js:129-145 | `identify` is taken from anyone. Any other message from an unregistered connection changes nothing |
| Relay.Server.OnSessionMessage | server.js:147-174 | `delete` and `reaction` are relayed, with their message id, reactor and symbol, to every open connection. Unknown types change nothing. Chat, typing and rename change the state as their handlers do |
| Relay.Server.OnClose | server.js:178-185 | The connection leaves `wss.clients`. A registered one is announced as left, its session deleted, and the aggregate sent. Otherwise nothing else changes |
| Relay.Server.Leave | server.js:180-183 | the announcement, the deletion and the aggregate, in that order |

## Left out

- TLS certificate generation and loading, Express static serving and
  compression, interface listing and `server.listen`: startup and I/O.
- The file reads and writes of `getUsers`/`saveUsers`: the store is the map
  `Relay.Server.users`, and a failing read (an empty store) is not modelled.
- `generateRandomName` and the message ids built from `Date.now`/
  `Math.random`: these are parameters (`generated`, `msgId`, `now`).
- DOM rendering, progress bars, audio and file widgets, the reaction menu,
  `MediaRecorder`, `FileReader`, `localStorage`, WebSocket reconnect,
  `formatSize` and `getHashColor`: browser UI and floating-point helpers.
  A rendered message is its id in `ClientState.Client.shown`.
- Backpressure waits (`bufferedAmount` polling against
  `BACKPRESSURE_LIMIT` and `BACKPRESSURE_THRESHOLD`), `setTimeout` and
  `setImmediate` yields. A wait is an abstract step that ends with the
  socket open or closed.
- Interleaving of concurrent async broadcasts: each `Broadcast` is atomic.
  One target's fragments go out in one `DrainStep`. `broadcast` yields after
  every target (server.js:206), so in the source a renamer who is not first
  in `wss.clients` gets `name_updated` (server.js:169) before its own copy of
  the announcement; `Relay.Server.AnnounceRename` states the atomic order.
- The typing timer of `handleTyping` that later calls `handleTyping(false)`:
  it is the caller's.
- JSON and UTF-8 encoding of the metadata: an assumed serialiser/parser pair.
  JSON field values of the wrong type (truthiness of non-boolean
  `isTyping`, non-string names) are not modelled.
- `maxPayload` (20 MB) rejection by the WebSocket library.
- Strings are sequences of characters, not UTF-16 code units, so `trim` and
  `substring` act on characters.
- ClientState.React: the reaction map is a prototype-free map. In the source,
  a symbol naming an inherited `Object` member (`constructor`, `toString`,
  `__proto__`) makes `r[m.symbol].push` throw after the reactor was already
  cleared; the model records the reaction. Only a hostile client sends one,
  since reactions are relayed as received.
- ClientState.Client.UpdateReaction: the same inherited-key case as
  `ClientState.React`.
- Sessions.IdentifyName: the uid store is a prototype-free map. In the
  source, a uid naming an inherited `Object` member makes `users[uid]` that
  inherited function, which becomes the username and is not stored; the
  model generates and stores a name.
- Reassembly.Store: chunk indices are integers in [0, 2^32 - 1). In the
  source any other `chunkIndex` (2^32 - 1 or more, negative, fractional)
  sets a plain property that neither `filter` nor `Blob` sees, while the
  entry is still created and its `lastUpdate` refreshed; the model grows the
  slot array and counts a large index, and has no negative or fractional
  one.
- Relay.Server.OnSessionMessage: a relayed `delete` or `reaction` carries
  only its message id, reactor and symbol. `broadcast(msg)` (server.js:172-173)
  sends the whole parsed object, including the `sender` field every
  `delete` has (public/client.js:322) and any other field a client adds;
  those fields are not modelled. The same holds for Relay.Server.OnText.
- Chunker.Percent: computes `floor(k * 100 / n)` exactly. The float
  expression `Math.floor(k / n * 100)` can be one lower (`57/100*100` floors
  to 56).
- Chunker.SendBin: states the shown percentages as bounds and the final
  100. It does not state which chunks pass the 100 ms throttle.
- Relay.Server.OnText: states the deliveries only for `delete` and
  `reaction`. Those of `identify`, `chat`, `typing` and `rename` are stated
  by `OnIdentify`, `OnChat`, `OnTyping` and `OnRename`.
- Relay.Server.OnSessionMessage: states the deliveries only for `delete`
  and `reaction`, for the same reason.
- The other `handleJson` cases of the client (history, chat rendering,
  delete and name updates on the page): UI.
- A socket's `send` after it has closed delivers nothing. A `pong` cannot arrive on a
  terminated socket; the model ignores one.
