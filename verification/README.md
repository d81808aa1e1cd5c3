# Download coordination of JavaTorrent, in Dafny

This project models the core of JavaTorrent's download coordination and proves what it
promises. It covers four parts.

- **The BitTorrent handshake** (`Handshake.dfy`) follows section "peer protocol" of
  BEP 3. It has two pure parts: the 68-byte frame, built as bytes, and the decision on
  a received frame.
  - A received frame is rejected if its length byte is wrong or its protocol string is
    wrong.
  - An incoming peer is rejected when it names a torrent we do not have.
  - A dialled peer is rejected when it names another torrent, or when the torrent it
    was dialled for is gone.
  - Otherwise the peer is handed to its torrent. An incoming peer first receives our
    own handshake.
- **The handshake handler** (`Handshake.HandshakeHandler`) is a class.
  - It holds the one 68-byte frame buffer shared by every handshake we send. Sending
    overwrites the info hash at offsets 28..47 in place.
  - It holds the selection keys of the pending connections.
  - A poll reads the ready connections and decides the complete frames. It then
    closes the connections that started more than five seconds ago. The modelled
    `Poll` uses a corrected sweep that closes only the connections still waiting for
    their handshake; the source's loop also closes those whose keys were cancelled
    earlier in the same poll, as shown under "## Findings".
  - A send that cannot write the whole frame closes the connection and registers
    nothing.
- **The download phase** (`PhaseData.dfy`) covers the following.
  - The relevant peers: not choking our downloads, and having a needed piece.
  - `onPhaseEnter` and `isDone`.
  - `process`. For each relevant peer, while it is under its request limit, it asks
    the piece selector for a piece. It asks again when the piece offered has no
    needed block left, and stops when the selector answers empty. Otherwise it
    requests the first needed block of that piece.
- **After the handshake** (`BitTorrentUtil.dfy`), the pieces we own are announced.
  - The announcement is one Bitfield message when that is shorter than one Have
    message per owned piece. Otherwise it is the Have messages, in ascending piece
    order.
  - Then the peer joins its torrent.
- **The store-block disk job** (`DiskJobStoreBlock.dfy`) writes a received block.
  - When that completes the piece, it adds one to the halting-operations counter and
    queues exactly one hash check.
  - A failed store makes the block needed again.
  - Every path takes one off the counter.

State that the source changes in place is modelled as classes. Those classes are the
handshake handler, the torrent of the download phase, the peer socket and torrent of
`onPostHandshake`, and the disk-job torrent. Each method is proved against a pure
specification function of the old state. Lemmas about those functions state what each
operation does; the table below says which promise each member states.

Time, the network and the file system are parameters.
- A poll receives the current time and what each ready connection yields.
- A write receives how many bytes the connection accepts.
- The piece selector is a finite script of answers.
- Folder creation and block storage are booleans.

Time is an integer count of nanoseconds.

## Model

| member | source | states |
|---|---|---|
| `Common.CeilDiv` | bittorrent/src/main/java/org/johnnei/javatorrent/bittorrent/protocol/BitTorrentUtil.java:36 | the quotient is the least number of `b`-sized units that covers `a` |
| `Pieces.BlockLength` | bittorrent/src/test/java/org/johnnei/javatorrent/phases/PhaseDataTest.java:251-252 | a block's length is positive and at most the block size; every block but the last has full length, and the last one ends exactly at the end of the piece |
| `Pieces.FirstNeeded` | bittorrent/src/test/java/org/johnnei/javatorrent/phases/PhaseDataTest.java:188-220 | the request block is the first `Needed` block; there is none exactly when no block is `Needed` |
| `PhaseData.NeededPieces` | bittorrent/src/test/java/org/johnnei/javatorrent/phases/PhaseDataTest.java:214 | the needed pieces are indices of the torrent's pieces, and there are none exactly when every piece is done |
| `PhaseData.RelevantPeers` | bittorrent/src/test/java/org/johnnei/javatorrent/phases/PhaseDataTest.java:56-91 | a peer is chosen if and only if it does not choke our downloads and has a needed piece; each peer appears once, in list order |
| `PhaseData.ProcessSound` | bittorrent/src/test/java/org/johnnei/javatorrent/phases/PhaseDataTest.java:222-286 | a pass leaves irrelevant peers untouched; it never takes a peer past its request limit; each peer's outstanding count grows by exactly its enqueued requests; each request is for a distinct block that was needed, at its offset and length, and that block is now requested |
| `PhaseData.ServePeerStops` | bittorrent/src/test/java/org/johnnei/javatorrent/phases/PhaseDataTest.java:188-253 | the per-peer loop consumes the selector's answers in order and stops only when the peer has reached its request limit or the selector has answered empty; every answer before the last one taken offered a piece |
| `PhaseData.ProcessStops` | bittorrent/src/test/java/org/johnnei/javatorrent/phases/PhaseDataTest.java:222-307 | after a pass, every relevant peer has reached its request limit, or the selector has answered empty at some point of the pass; `ProcessServesEach` states this peer by peer |
| `PhaseData.ProcessServesEach` | bittorrent/src/test/java/org/johnnei/javatorrent/phases/PhaseDataTest.java:222-286 | the relevant peers are served in order, each from the state the peers before it left; each one's turn ends only when it has reached its request limit or the selector has answered empty during that same turn, and the peers served after it leave it as its turn did |
| `PhaseData.EmptySelectorSendsNothing` | bittorrent/src/test/java/org/johnnei/javatorrent/phases/PhaseDataTest.java:288-307 | when the selector answers empty, no request is enqueued and no block or peer changes |
| `PhaseData.DoneMeansNothingToRequest` | bittorrent/src/test/java/org/johnnei/javatorrent/phases/PhaseDataTest.java:175-185 | once every piece is done, no peer is relevant and a pass changes nothing |
| `PhaseData.LimitOneSendsOneRequest` | bittorrent/src/test/java/org/johnnei/javatorrent/phases/PhaseDataTest.java:222-253 | with request limit 1 and a selector that keeps offering piece 0, exactly one request is sent: piece 0, offset 0, length 4 |
| `PhaseData.LimitTwoSendsTwoRequests` | bittorrent/src/test/java/org/johnnei/javatorrent/phases/PhaseDataTest.java:255-286 | with limit 2 on an 8-byte piece in 4-byte blocks, exactly two requests are sent, at offsets 0 and 4 |
| `PhaseData.RaceLossAsksAgain` | bittorrent/src/test/java/org/johnnei/javatorrent/phases/PhaseDataTest.java:188-220 | the selector offers a piece with no needed block and then answers empty: it is asked exactly twice and nothing is sent |
| `PhaseData.IsDone` | bittorrent/src/test/java/org/johnnei/javatorrent/phases/PhaseDataTest.java:175-185 | done if and only if no piece is needed; when done, a pass changes nothing |
| `PhaseData.OnPhaseEnter` | bittorrent/src/test/java/org/johnnei/javatorrent/phases/PhaseDataTest.java:117-172 | progress is checked once and the full-piece selector installed on every path; the phase fails with the download-folder error exactly when the folder neither exists nor can be created |
| `PhaseData.AskSelector` | bittorrent/src/test/java/org/johnnei/javatorrent/phases/PhaseDataTest.java:213 | the selector is asked once more; it returns its next scripted answer, or empty once the script is used up; nothing else changes |
| `PhaseData.RequestBlock` | bittorrent/src/test/java/org/johnnei/javatorrent/phases/PhaseDataTest.java:251-252 | one block is marked requested, the peer's outstanding count grows by one and the request is enqueued: the state `Grant` specifies |
| `PhaseData.RequestPieces` | bittorrent/src/test/java/org/johnnei/javatorrent/phases/PhaseDataTest.java:188-253 | the per-peer request loop ends in the state `ServePeer` specifies, about which `ServePeerStops` and the `ServePeer` lemmas behind `ProcessSound` are proved |
| `PhaseData.Process` | bittorrent/src/test/java/org/johnnei/javatorrent/phases/PhaseDataTest.java:255-286 | `process` ends in the state `ProcessSpec` specifies, about which `ProcessSound` (safety) and `ProcessServesEach` (each relevant peer is served until its limit or an empty answer during its own turn) are proved |
| `BitTorrentUtil.CountCompleted` | bittorrent/src/main/java/org/johnnei/javatorrent/bittorrent/protocol/BitTorrentUtil.java:32 | the count of completed pieces is the number of pieces we have |
| `BitTorrentUtil.Announcements` | bittorrent/src/main/java/org/johnnei/javatorrent/bittorrent/protocol/BitTorrentUtil.java:24-47 | something is announced exactly when metadata is not being fetched and some piece is owned; every message is a Have or the given Bitfield |
| `BitTorrentUtil.HavesCount` | bittorrent/src/main/java/org/johnnei/javatorrent/bittorrent/protocol/BitTorrentUtil.java:38-45 | the loop emits one 5-byte Have message per owned piece |
| `BitTorrentUtil.HavesSorted` | bittorrent/src/main/java/org/johnnei/javatorrent/bittorrent/protocol/BitTorrentUtil.java:38-45 | each Have names an owned piece, and the indices strictly ascend |
| `BitTorrentUtil.HavesComplete` | bittorrent/src/main/java/org/johnnei/javatorrent/bittorrent/protocol/BitTorrentUtil.java:38-45 | every owned piece gets its Have message |
| `BitTorrentUtil.HavesExact` | bittorrent/src/main/java/org/johnnei/javatorrent/bittorrent/protocol/BitTorrentUtil.java:38-45 | the Have messages name exactly the owned pieces, once each, ascending |
| `BitTorrentUtil.AnnouncementsSpec` | bittorrent/src/main/java/org/johnnei/javatorrent/bittorrent/protocol/BitTorrentUtil.java:24-47 | nothing is sent while metadata is fetched or no piece is owned; otherwise exactly one Bitfield when the size test favours it, else exactly the Have messages of the owned pieces |
| `BitTorrentUtil.ShorterEncoding` | bittorrent/src/main/java/org/johnnei/javatorrent/bittorrent/protocol/BitTorrentUtil.java:36-37 | with a bitfield of ceil(pieceCount / 8) bytes, the messages sent are the shorter encoding (Have messages on a tie) |
| `BitTorrentUtil.SendHaveMessages` | bittorrent/src/main/java/org/johnnei/javatorrent/bittorrent/protocol/BitTorrentUtil.java:24-47 | the socket queue gains exactly the announcements |
| `BitTorrentUtil.OnPostHandshake` | bittorrent/src/main/java/org/johnnei/javatorrent/bittorrent/protocol/BitTorrentUtil.java:18-22 | the socket is marked past the handshake, the announcements are queued and the peer is appended to its torrent; nothing else of the torrent changes |
| `Handshake.BuildFrame` | bittorrent/src/main/java/org/johnnei/javatorrent/internal/network/connector/BitTorrentHandshakeHandlerImpl.java:60-69 | the frame is 68 bytes: length byte 19, the protocol string, then extension bytes, info hash and peer id at offsets 20, 28 and 48 |
| `Handshake.Decide` | bittorrent/src/main/java/org/johnnei/javatorrent/internal/network/connector/BitTorrentHandshakeHandlerImpl.java:180-225 | a frame is accepted if and only if its header is right, its torrent is known and, for a dialled peer, is the one expected; on acceptance the fields are taken from their offsets and only an incoming peer is answered; each violation is reported for exactly its own case |
| `Handshake.DecideBuildFrame` | bittorrent/src/main/java/org/johnnei/javatorrent/internal/network/connector/BitTorrentHandshakeHandlerImpl.java:126-136 | a frame we build is decided by the torrent check alone, and an accepted one returns its extension bytes, hash and peer id unchanged |
| `Handshake.TimedOut` | bittorrent/src/main/java/org/johnnei/javatorrent/internal/network/connector/BitTorrentHandshakeHandlerImpl.java:160 | a connection has timed out exactly when more than five seconds have passed since it started |
| `Handshake.Registered` | bittorrent/src/main/java/org/johnnei/javatorrent/internal/network/connector/BitTorrentHandshakeHandlerImpl.java:140 | the selection keeps exactly the keys not cancelled, and keeps the connections of the keys distinct when they were |
| `Handshake.ReceiveFrame` | bittorrent/src/main/java/org/johnnei/javatorrent/internal/network/connector/BitTorrentHandshakeHandlerImpl.java:180-225 | a complete frame is stored in its key and the key cancelled; no other key changes; at most that key's connection is closed, at most one peer is handed off and writes are only appended; a hand-off is for that connection, names a known torrent matching what a dialled connection expected, and leaves the connection open |
| `Handshake.ReceiveFrameOutcome` | bittorrent/src/main/java/org/johnnei/javatorrent/internal/network/connector/BitTorrentHandshakeHandlerImpl.java:180-225 | a frame that is not acceptable closes its connection and hands off nothing; an acceptable frame from a dialled peer hands off exactly that connection with the frame's peer id, extension bytes and info hash; an incoming peer is first written our frame stamped with its info hash, up to what the connection accepts, and is handed off when all 68 bytes were written and closed otherwise |
| `Handshake.HandleKey` | bittorrent/src/main/java/org/johnnei/javatorrent/internal/network/connector/BitTorrentHandshakeHandlerImpl.java:167-178 | reading a key changes no other key and keeps its connection, expectation and start; at most that connection is closed, at most one peer is handed off and writes are only appended; a hand-off is for a known torrent matching what the key expected, with the key cancelled and its connection left open |
| `Handshake.HandleKeyReads` | bittorrent/src/main/java/org/johnnei/javatorrent/internal/network/connector/BitTorrentHandshakeHandlerImpl.java:167-178 | a failed read cancels the key and closes its connection; a read that leaves the frame incomplete only adds the bytes read to the key's buffer, deciding nothing; a read that completes it receives the first 68 bytes as `ReceiveFrame` specifies |
| `Handshake.HandleReady` | bittorrent/src/main/java/org/johnnei/javatorrent/internal/network/connector/BitTorrentHandshakeHandlerImpl.java:141-150 | the selected-keys loop keeps each key's connection, expectation and start, and never revives a cancelled key; `HandleReadyOnlyReady` and `HandleReadyReceives` state what it does to each key |
| `Handshake.HandleReadyOnlyReady` | bittorrent/src/main/java/org/johnnei/javatorrent/internal/network/connector/BitTorrentHandshakeHandlerImpl.java:141-150 | the loop touches only the connections reported ready: every other key keeps its state, and every connection closed or peer handed off was reported ready |
| `Handshake.HandleReadyReceives` | bittorrent/src/main/java/org/johnnei/javatorrent/internal/network/connector/BitTorrentHandshakeHandlerImpl.java:140-153 | by the end of the selected-keys loop, each ready key has been read: a failed read has closed its connection, an incomplete frame has grown the key's buffer, and a complete frame has been closed or handed off, and answered, as `ReceiveFrameOutcome` states |
| `Handshake.Sweep` | bittorrent/src/main/java/org/johnnei/javatorrent/internal/network/connector/BitTorrentHandshakeHandlerImpl.java:155-164 | the corrected sweep leaves writes, hand-offs and the frame alone and keeps keys well formed |
| `Handshake.SweepAsWritten` | bittorrent/src/main/java/org/johnnei/javatorrent/internal/network/connector/BitTorrentHandshakeHandlerImpl.java:155-164 | the sweep as written leaves the hand-offs alone (its flaw is shown by `SweepAsWrittenClosesHandedOffPeer`) |
| `Handshake.PollSpec` | bittorrent/src/main/java/org/johnnei/javatorrent/internal/network/connector/BitTorrentHandshakeHandlerImpl.java:138-165 | a poll keeps every key within one frame, and every key holding a full frame is cancelled; `PollReceives`, `PollKeepsIdle`, `PollClosesOnlyReadyOrStale`, `PollHandoffs` and `PollLeavesNoStaleKey` state what it does to each key |
| `Handshake.HandleReadyHandoffs` | bittorrent/src/main/java/org/johnnei/javatorrent/internal/network/connector/BitTorrentHandshakeHandlerImpl.java:199-224 | the loop only appends hand-offs; each is for a known torrent and keeps its connection open; its key is cancelled and expected that torrent |
| `Handshake.SweepExact` | bittorrent/src/main/java/org/johnnei/javatorrent/internal/network/connector/BitTorrentHandshakeHandlerImpl.java:155-164 | the sweep cancels exactly the registered keys older than five seconds and closes exactly their connections |
| `Handshake.PollLeavesNoStaleKey` | bittorrent/src/main/java/org/johnnei/javatorrent/internal/network/connector/BitTorrentHandshakeHandlerImpl.java:155-164 | after a poll, no registered key started more than five seconds ago |
| `Handshake.PollHandoffs` | bittorrent/src/main/java/org/johnnei/javatorrent/internal/network/connector/BitTorrentHandshakeHandlerImpl.java:138-225 | every peer a poll hands off names a known torrent, matches what a dialled connection expected, has its key cancelled, and keeps its connection open |
| `Handshake.PollReceives` | bittorrent/src/main/java/org/johnnei/javatorrent/internal/network/connector/BitTorrentHandshakeHandlerImpl.java:138-225 | for each key the selection keeps whose connection is ready, the poll has closed it after a failed read, grown its buffer after an incomplete one, and closed or handed off and answered a complete frame as `ReceiveFrameOutcome` states |
| `Handshake.PollKeepsIdle` | bittorrent/src/main/java/org/johnnei/javatorrent/internal/network/connector/BitTorrentHandshakeHandlerImpl.java:138-165 | a registered key whose connection was not reported ready and that has not waited more than five seconds comes out of the poll unchanged, and its connection is closed afterwards only if it was before |
| `Handshake.PollClosesOnlyReadyOrStale` | bittorrent/src/main/java/org/johnnei/javatorrent/internal/network/connector/BitTorrentHandshakeHandlerImpl.java:138-165 | every connection a poll closes was reported ready or is watched by a registered key that waited more than five seconds; every peer it hands off was reported ready |
| `Handshake.SweepAsWrittenClosesHandedOffPeer` | bittorrent/src/main/java/org/johnnei/javatorrent/internal/network/connector/BitTorrentHandshakeHandlerImpl.java:155-164 | a dialled peer whose frame arrives six seconds after connecting is handed off, and then the sweep as written closes its connection; the corrected sweep does not |
| `Handshake.HandshakeHandler.constructor` | bittorrent/src/main/java/org/johnnei/javatorrent/internal/network/connector/BitTorrentHandshakeHandlerImpl.java:60-69 | the shared frame holds our header, extension bytes and peer id, with a zero info hash; nothing is pending |
| `Handshake.HandshakeHandler.SendHandshake` | bittorrent/src/main/java/org/johnnei/javatorrent/internal/network/connector/BitTorrentHandshakeHandlerImpl.java:126-136 | only the info hash of the shared frame changes; the frame is written up to what the connection accepts; success exactly when all 68 bytes fit |
| `Handshake.HandshakeHandler.OnConnectionEstablished` | bittorrent/src/main/java/org/johnnei/javatorrent/internal/network/connector/BitTorrentHandshakeHandlerImpl.java:80-95 | for a connection no key watches yet: after our handshake is sent, a key expecting the hash is registered; if the send failed, the connection is closed and nothing is registered |
| `Handshake.HandshakeHandler.OnConnectionReceived` | bittorrent/src/main/java/org/johnnei/javatorrent/internal/network/connector/BitTorrentHandshakeHandlerImpl.java:105-114 | for a connection no key watches yet, a key expecting no particular torrent is registered; nothing else changes |
| `Handshake.HandshakeHandler.HandlePeer` | bittorrent/src/main/java/org/johnnei/javatorrent/internal/network/connector/BitTorrentHandshakeHandlerImpl.java:167-178 | reading one key ends in the state `HandleKey` specifies, about which `HandleKeyReads` is proved, and the shared frame stays well formed |
| `Handshake.HandshakeHandler.OnHandshakeReceived` | bittorrent/src/main/java/org/johnnei/javatorrent/internal/network/connector/BitTorrentHandshakeHandlerImpl.java:180-225 | deciding a complete frame ends in the state `ReceiveFrame` specifies, about which `ReceiveFrameOutcome` is proved, and the shared frame stays well formed |
| `Handshake.HandshakeHandler.HandleSelected` | bittorrent/src/main/java/org/johnnei/javatorrent/internal/network/connector/BitTorrentHandshakeHandlerImpl.java:140-153 | the selected-keys loop ends in the state `HandleReady` specifies, about which `HandleReadyReceives` is proved |
| `Handshake.HandshakeHandler.HandleSelectedKey` | bittorrent/src/main/java/org/johnnei/javatorrent/internal/network/connector/BitTorrentHandshakeHandlerImpl.java:141-150 | one turn of the selected-keys loop: a ready key is read as `HandleKey` specifies and any other key is skipped |
| `Handshake.HandshakeHandler.CloseTimedOut` | bittorrent/src/main/java/org/johnnei/javatorrent/internal/network/connector/BitTorrentHandshakeHandlerImpl.java:155-164 | the timeout loop ends in the state the corrected `Sweep` specifies |
| `Handshake.HandshakeHandler.CloseIfStale` | bittorrent/src/main/java/org/johnnei/javatorrent/internal/network/connector/BitTorrentHandshakeHandlerImpl.java:156-163 | one turn of the timeout loop, as the corrected `Sweep` specifies: a key still waiting that started over five seconds ago is cancelled and its connection closed |
| `Handshake.HandshakeHandler.Poll` | bittorrent/src/main/java/org/johnnei/javatorrent/internal/network/connector/BitTorrentHandshakeHandlerImpl.java:138-165 | a poll ends in the state `PollSpec` specifies, about which `PollReceives`, `PollKeepsIdle`, `PollClosesOnlyReadyOrStale`, `PollLeavesNoStaleKey` and `PollHandoffs` are proved |
| `DiskJobs.StoreBlockPriority` | torrent/download/files/disk/DiskJobStoreBlock.java:33-36 | a store job has critical priority |
| `DiskJobs.StoreBlockSpec` | torrent/download/files/disk/DiskJobStoreBlock.java:19-31 | only the stored block changes: it becomes stored, or needed again after a failure; every other block of every piece is kept |
| `DiskJobs.StoreBlockJobs` | torrent/download/files/disk/DiskJobStoreBlock.java:21-30 | a store that completes its piece queues exactly one hash check, for that piece, and leaves the counter unchanged; any other store queues nothing and takes one off the counter |
| `DiskJobs.StoreBlockKeepsCount` | torrent/download/files/disk/DiskJobStoreBlock.java:19-31 | if the counter counted the queued jobs plus this one before, it counts exactly the queued jobs afterwards |
| `DiskJobs.StoreCompletesPiece` | torrent/download/files/disk/DiskJobStoreBlock.java:21-25 | a successful store queues a hash check if and only if every other block of the piece was already stored |
| `DiskJobs.Torrent.AddToHaltingOperations` | torrent/download/files/disk/DiskJobStoreBlock.java:23 | the counter moves by the given amount; nothing else changes |
| `DiskJobs.Torrent.AddDiskJob` | torrent/download/files/disk/DiskJobStoreBlock.java:24 | the job is appended to the queue; nothing else changes |
| `DiskJobs.ProcessStoreBlock` | torrent/download/files/disk/DiskJobStoreBlock.java:19-31 | `process` ends in the state `StoreBlockSpec` specifies |

## Left out

- `PhaseData.java` is not part of this model. The download phase is modelled from the behaviour its tests require.
  - A needed piece is a piece that is not done.
  - The relevant peers are chosen once, at the start of `process`.
  - The block requested is the first `Needed` block of the piece.
- The piece selector is a finite script of answers; once the script runs out it answers empty. A selector that keeps offering pieces without needed blocks would keep the source's loop running forever; the model does not capture that.
- `PhaseData.OnPhaseEnter` records which piece selector is installed, as a tag. Installing `FullPieceSelect` does not change the scripted answers that `process` consumes, so the installed selector's own behaviour is not modelled.
- `onPhaseExit` and its tracker calls are not modelled. `checkProgress` is modelled as a counter.
- The download phase keeps peers as values in a sequence, so aliasing between peers is not captured. The requests enqueued on every peer socket are kept as one log, in enqueue order; the order on each socket is that log restricted to the peer.
- `BitTorrentUtil.PreferBitfield`: Java's 32-bit `int` could overflow in `5 * countCompletedPieces()`. Integers here are unbounded, so no overflow is modelled; an overflow would need more than 429 million pieces.
- The order of the steps in `onPostHandshake` only matters to concurrent readers of the socket and the torrent. Concurrency is not modelled.
- Message lengths are body lengths: the message id plus the payload, without the 4-byte length prefix. This is the measure the source's size test uses.
- The protocol string is compared as bytes. The character decoding done by `getString` is not modelled.
- The NIO plumbing is not modelled:
  - opening and closing the selector, and `stop()`;
  - scheduling the poll every 50 ms;
  - removal through the key iterator.
- Selection, cancellation and deregistration are abstracted:
  - closing a connection cancels its key;
  - a cancelled key leaves the selector at the next poll.
- A read that reaches the end of the stream reads nothing.
- Bytes beyond the 68 of the frame stay unread in the connection; they are not modelled.
- One poll reads the clock once, where the source reads it once per key in the timeout loop.
- `registerPeer`, `Peer.Builder`, `BitTorrentSocket` and `MessageFactory` become one hand-off record: connection, peer id, extension bytes and torrent.
- A runtime exception from registering with a closed selector is not modelled.
- Every new connection is a new channel with no key yet, so the two registration methods require a connection that no key watches.
- Torrents are identified by their info hash.
- The internals of `Piece.storeBlock`, `isDone` and `reset` are reduced to block statuses. A failed store is a boolean input; the logged message is not modelled.
- SHA-1 and the work of the hash-check job are not modelled. So is the priority queue that orders disk jobs; only the store job's priority is.

## Findings

| source | as written | input that shows it | evidently intended | confidence | as-written member | corrected member |
|---|---|---|---|---|---|---|
| bittorrent/src/main/java/org/johnnei/javatorrent/internal/network/connector/BitTorrentHandshakeHandlerImpl.java:155-164 | the timeout loop walks `selector.keys()`. That set still holds the keys cancelled earlier in the same poll, because NIO removes cancelled keys only at the next selection. So a connection whose handshake completed in this poll is closed as timed out. | a dialled connection starting at time 0 whose whole frame is read in a poll at 6 s: the peer is handed to its torrent, then its connection is closed | only connections still waiting for their handshake are closed (skip cancelled keys) | medium, not executed | `Handshake.SweepAsWrittenClosesHandedOffPeer` | `Handshake.PollHandoffs` |
