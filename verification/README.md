# P2P file transfer: signalling relay, session credentials and chunked transfer

This project models the core of a browser-to-browser file-transfer application in Dafny.

- A receiving page mints a session id and token.
- A sending page joins the same session on a small WebSocket signalling server.
- Once the peers are connected, the sender pushes files over a direct data channel. Each file is one metadata frame followed by 16 KiB binary chunks.

The model has six modules, one file each:

- `common.dfy` (`Common`): the shared vocabulary. It holds bytes, files and data-channel frames, plus the JavaScript string built-ins the pages and the server apply to user input (`toLowerCase`, `trim`). It also holds `Concat`, which joins fragments as a `Blob` does.
- `helpers.dfy` (`Helpers`): `secureRandomInt`, `generateSecureId`, `generateSecureToken`, `isValidSessionId` and `isValidToken`.
  - The browser's random source becomes a finite byte stream `entropy`.
  - `Draws(max, entropy)` is the sequence of results that successive calls produce from that stream.
  - The methods are proved against `Draws`.
- `server.dfy` (`Server`): the connection handlers of the signalling server.
  - Each handler is a function over a `Registry`. The registry holds the rooms (token, ordered members, creation time) and the connections (bound room, open flag).
  - The result is an `Outcome`: the new registry and the replies, forwards and closes it emits.
  - The class `SignalingServer` holds the same maps as fields. Its methods update them in place, and each method is proved to perform exactly the function's step while keeping the registry well formed:
    - every room has a valid id and token and at least one member;
    - every open, bound connection is a member of its room.
- `sender.dfy` (`Sender`): the sending page.
  - Connect-button normalisation and the QR auto-connect.
  - The one-time peer connection set-up (`SenderPage`).
  - `sendFileOverDataChannel` (`SendFile`) and the send-button loop over the picked files (`SendAll`).
  - The channel's buffered amount at each check and the send call that throws (if any) are inputs.
  - The steps the sender takes (frames sent, waits for the low-watermark event) are its output, proved equal to a transcript function.
- `receiver.dfy` (`Receiver`): the receiving page's data-channel handler. `Receive` is the step function and `ChannelReceiver` is the closure state updated in place.
- `transfer.dfy` (`Transfer`): the pieces together.
  - The frames of any non-empty file's transcript are reassembled by the receiver into exactly that file. An empty file is never delivered, because the receiver tests for completion only on binary frames.
  - A queue of files sent in full reaches the receiver as its non-empty files, in order.
  - A session the pages accept is admitted by the server, unless the room already exists with another token.

Some behaviours of the code that the model keeps:

- Keep-alive `ping` messages are relayed to the other members like any other signalling message (server/server.js:113-118).
- A second `join` on a connection that is already bound is admitted: the connection is appended again and rebound (server/server.js:98-99).
- That second join does not take the connection out of its first room, and the close handler filters only the room the connection is bound to (server/server.js:122-127). A connection that joins r1, then r2, then closes leaves r1 behind holding only that closed connection. r1 is never deleted, and its token keeps refusing joins with any other token (server/server.js:92-95).
- Tokens are 32 characters (helpers.js:5, server/server.js:36).
- A receiver whose count has reached the announced size is not reset. Every further binary frame before the next metadata frame delivers the whole buffer again (client/script.js:181-185).

## Model

| member | source | states |
|---|---|---|
| Common.LowerKeepsLowerAlnum | server/server.js:75-76 | lower-casing leaves a string over `[a-z0-9]` unchanged |
| Common.LowerFoldsUpperCase | sender.js:35-36 | lower-casing turns every A-Z into its a-z letter, so upper-case input over `[A-Za-z0-9]` becomes a string over `[a-z0-9]` |
| Common.TrimStart | sender.js:35-36 | the result is a suffix of the input that starts with a kept character; everything cut is whitespace or a line terminator |
| Common.TrimEnd | sender.js:35-36 | the result is a prefix of the input that ends with a kept character; everything cut is whitespace or a line terminator |
| Helpers.PatternMeaning | helpers.js:36-42 | the anchored pattern `^[a-z0-9]{n}$`, matched one class per position, accepts exactly the strings of length n whose every character is in `[a-z0-9]` |
| Helpers.ValidatorsRejectForeignCharacter | helpers.js:36-42 | one character outside `[a-z0-9]`, an upper-case letter for example, makes both validators reject |
| Helpers.AlphabetIsCharacterClass | helpers.js:6 | the alphabet has 36 pairwise distinct symbols and they are exactly the characters of `[a-z0-9]` |
| Helpers.MaxUnbiased | helpers.js:10 | the acceptance bound lies between max and 256 |
| Helpers.Draws | helpers.js:9-18 | the results drawn from a byte stream are at most as many as its bytes |
| Helpers.DrawsInRange | helpers.js:17 | every result drawn is in [0, max), so it indexes the alphabet |
| Helpers.SecureRandomInt | helpers.js:9-18 | returns a value in [0, max): the first accepted byte modulo max; every byte before it was rejected; it is the first of the stream's draws, and the rest of the stream yields the remaining draws |
| Helpers.RejectedBytesForAlphabet | helpers.js:10-16 | for the 36-symbol alphabet a byte is accepted exactly when it is below 252, so 252..255 are always rejected |
| Helpers.ResidueCountBlocks | helpers.js:17 | among the first q·max + s values (s < max), remainder r occurs q times, plus once more when r < s |
| Helpers.UniformPreimages | helpers.js:10-17 | among the accepted bytes every result in [0, max) has exactly floor(256/max) preimages |
| Helpers.NextSymbol | helpers.js:23 | one symbol is the alphabet symbol of the stream's first draw, and the rest of the stream yields the remaining draws |
| Helpers.RandomAlphanumeric | helpers.js:21-25 | the loop spells the first len draws of the stream, one alphabet symbol per draw, and leaves the later draws to the stream's remainder |
| Helpers.GenerateSecureId | helpers.js:20-26 | the id has exactly len characters, each the alphabet symbol at the next draw; with the default length it passes isValidSessionId; the bytes it leaves unused yield exactly the draws after its len draws, so a token generated next continues the stream |
| Helpers.GenerateSecureToken | helpers.js:28-34 | the token has exactly len characters, each the alphabet symbol at the next draw; with the default length it passes isValidToken; the bytes it leaves unused yield exactly the draws after its len draws |
| Helpers.IsValidSessionId | helpers.js:36-38 | a session id is valid when it is exactly 20 characters over `[a-z0-9]` |
| Helpers.IsValidToken | helpers.js:40-42 | a token is valid when it is exactly 32 characters over `[a-z0-9]` |
| Server.JoinStep | server/server.js:74-104 | the join branch: refuse an invalid lower-cased room, then an invalid token, then a token other than the room's (reply, close); otherwise create the room if missing, append the joiner, bind it and reply with the member count; the set of known connections never changes |
| Server.Deliveries | server/server.js:114-118 | the fan-out over the room's members in order: one forward of the message to each member that is open and is not the sender |
| Server.SignalStep | server/server.js:106-118 | a non-join message: `not_in_room` for a connection with no live room, otherwise the room's deliveries, with the registry unchanged |
| Server.MessageStep | server/server.js:60-119 | one message: a join, another signalling message, or a binary or non-JSON message that is dropped |
| Server.CloseStep | server/server.js:121-133 | the close handler: filter the connection out of its bound room and delete the room when it empties; the connection stops being open; the set of known connections never changes |
| Server.Closing | server/server.js:114-118 | a connection whose transport starts closing stops being OPEN at once, before its 'close' event; its room membership and everything else stay as they were |
| Server.ClosingPreservesWellFormed | server/server.js:114-118 | a closing transport keeps the registry well formed |
| Server.ClosingPeerIsSkipped | server/server.js:114-118 | while its transport is closing, a member keeps its place in the room, but no relayed message reaches it |
| Server.CloseConns | server/server.js:121-133 | closing changes only the closing connection's record, and in it only the open flag |
| Server.StaleMembershipAfterRebind | server/server.js:89-127 | a connection that joins r1, then r2, then closes leaves r1 holding only that closed connection, and a later join of r1 with another token is refused `token_mismatch` |
| Server.ServerAndPagesAgree | server/server.js:35-36 | the server's room and token patterns accept exactly what the pages' validators accept |
| Server.JoinRejections | server/server.js:75-96 | a join is refused `invalid_room` for a bad lower-cased room id, else `invalid_token` for a bad token, else `token_mismatch` for a token other than the room's; each refusal replies, closes the connection and changes nothing else, neither the rooms nor any other connection |
| Server.JoinAdmits | server/server.js:89-103 | an admitted join creates a missing room with the joiner's token and the joiner as sole member, or appends the joiner to an existing room; it binds the connection, replies with the new member count, and touches no other room and no other connection |
| Server.JoinPreservesWellFormed | server/server.js:89-103 | a join keeps every room valid and non-empty and every open bound connection a member of its room |
| Server.TokensNeverChange | server/server.js:89-96 | no message and no close changes the token or creation time of a room that exists before and after it |
| Server.DeliveriesExactlyOpenPeers | server/server.js:114-118 | the fan-out sends the unchanged message to every open member other than the sender, and to nobody else |
| Server.SignalIsolation | server/server.js:106-118 | a message from a connection with no live room gets only `not_in_room`; one from a bound connection reaches exactly the other open members of its room; neither changes the registry |
| Server.BoundOpenConnectionIsRelayed | server/server.js:107-118 | in a well-formed registry an open, bound connection is never answered `not_in_room` |
| Server.DropsBinaryAndMalformed | server/server.js:61-72 | binary frames and non-JSON text produce no reply and no state change |
| Server.Without | server/server.js:124 | the filtered member list holds exactly the members other than the closing connection |
| Server.WithoutOnlyOccurrences | server/server.js:124 | filtering out the only member left gives the empty list |
| Server.CloseRemovesMember | server/server.js:121-129 | on close the connection is no longer open, every occurrence of it leaves its room, the room survives exactly when another member remains, and other rooms and other connections are untouched |
| Server.ClosePreservesWellFormed | server/server.js:121-129 | closing keeps every room non-empty and valid, so no empty room stays in the registry |
| Server.MessagePreservesWellFormed | server/server.js:60-119 | every message keeps the registry well formed and the set of known connections unchanged |
| Server.RejoinAfterLastLeaves | server/server.js:121-129 | after the last member, bound to that room, closes, the room is gone, and a join with the same id and a different token creates it afresh with that token and replies one member |
| Server.SignalingServer.constructor | server/server.js:38 | the server starts with no rooms and no connections |
| Server.SignalingServer.Connect | server/server.js:57 | a new connection is open, in no room, and distinct from all earlier ones |
| Server.SignalingServer.TransportClosing | server/server.js:114-118 | the connection's open flag is cleared in place, nothing else changes, and the registry stays well formed |
| Server.SignalingServer.OnMessage | server/server.js:60-119 | the fields become the registry of the message step, the emitted events are appended to the log, and the registry stays well formed |
| Server.SignalingServer.HandleJoin | server/server.js:74-104 | the in-place join performs exactly the join step and keeps the registry well formed |
| Server.SignalingServer.HandleSignal | server/server.js:106-118 | the fan-out loop leaves the registry unchanged and logs exactly the relay step's events |
| Server.SignalingServer.OnClose | server/server.js:121-133 | the in-place close performs exactly the close step and keeps the registry well formed |
| Sender.ManualConnect | sender.js:34-40 | the manual connect handler: trim and lower-case both inputs, alert on an invalid session id, then on an invalid token, otherwise connect with the normalised values |
| Sender.QrConnect | sender.js:21-31 | page load: lower-case the `session` and `token` parameters (empty when absent) and connect when both are valid, else show the invalid status |
| Sender.ConnectClick | sender.js:20-40 | the connect button after page load: the QR handler when the QR parameters are valid, the manual handler otherwise |
| Sender.ManualConnectOnlyWhenValid | sender.js:34-40 | the manual connect handler connects exactly when both trimmed, lower-cased inputs are valid, with those values; an invalid session id is reported first, whatever the token |
| Sender.TrimPadded | sender.js:35-36 | trimming removes surrounding whitespace from a value that has none inside it |
| Sender.ManualConnectForgivesPaddingAndCase | sender.js:35-39 | an id and token typed with surrounding whitespace and in upper case connect as their lower-case forms |
| Sender.QrConnectOnlyWhenValid | sender.js:21-31 | the QR path connects exactly when both lower-cased parameters are present and valid, and then with exactly those lower-cased values; it refuses a missing parameter and does not trim |
| Sender.ConnectClickHandler | sender.js:20-40 | on a page opened with valid QR parameters the button reconnects to the QR session whatever the input fields hold; on a page without them it is the manual handler; it only ever connects with a valid id and token |
| Sender.SenderPage.constructor | sender.js:16-18 | the page starts with no peer connection and no data channel |
| Sender.SenderPage.SetupPeerConnection | sender.js:115-126 | set-up creates one peer connection and its data channel; when one exists it changes nothing, so repeated calls create only one |
| Sender.Transcript | sender.js:202-231 | the steps of one uninterrupted file send: the metadata frame, then per chunk an optional drain wait and the chunk's send |
| Sender.Queue | sender.js:189-199 | the send loop over the picked files: each file's steps in order, stopping after the first file whose send throws, and whether the loop completed |
| Sender.SendFile | sender.js:202-231 | without a failure the steps are the file's transcript: metadata, then per chunk an optional wait and the send; after a failing send they are the transcript up to that send; it fails exactly when the failing send is one the file makes |
| Sender.RoundNext | sender.js:211-228 | a round whose send succeeds keeps the loop invariant: the steps so far followed by the remaining rounds are the whole transcript, and one more frame has gone out |
| Sender.RoundCut | sender.js:211-228 | when the send of round i throws, the steps so far are the transcript cut before its (i + 1)-th send, and that send is one the file makes |
| Sender.ChunksCoverFile | sender.js:211-228 | the chunks concatenated in order are the file's bytes |
| Sender.ChunkShape | sender.js:211-213 | chunk k is bytes [16384k, min(16384(k+1), size)); every chunk is 16384 bytes except the last, which is non-empty |
| Sender.ChunkCount | sender.js:211 | there are ceil(size/16384) chunks; an empty file is sent as its metadata frame alone |
| Sender.TranscriptFrames | sender.js:207-227 | the frames sent are one metadata frame `{name, type, size}`, first, then one binary frame per chunk in file order |
| Sender.PacedFrames | sender.js:215-227 | waiting changes when chunks are sent, never which frames are sent |
| Sender.PacingWaits | sender.js:215-227 | the sender waits once per round whose check found more than 16 chunks buffered, and only then; each wait is for the 8-chunk threshold and is followed directly by a chunk send |
| Sender.NoWaitBelowHighWatermark | sender.js:215 | with the buffer never above 16 chunks the sender never waits |
| Sender.SendAll | sender.js:179-200 | no files or a closed channel send nothing and alert; otherwise the log is the queue's and "All files sent!" is reported exactly when the queue completes |
| Sender.QueueStopsAtFirstFailure | sender.js:189-197 | the files before the first failing one are sent in full, that one up to its failed send, and no later file at all |
| Sender.QueueSucceedsIffEveryFile | sender.js:189-199 | the queue completes exactly when every file does, and then it sends every file's transcript in order |
| Receiver.Receive | client/script.js:161-186 | one data-channel frame: a metadata frame resets the buffer and count and records the file; a binary frame is buffered and counted, and the buffer is delivered when the count reaches the announced size |
| Receiver.ReceiveKeepsConsistent | client/script.js:168-178 | the received count stays equal to the total length of the buffered fragments |
| Receiver.BinaryDeliversWhenComplete | client/script.js:176-183 | a binary frame delivers at most once, exactly when a file is announced and the count reaches its size, and the delivery is the buffer plus the frame in arrival order under the announced name and type |
| Receiver.RunAppend | client/script.js:161-186 | frames handled in two batches end in the same state, with the same deliveries in the same order, as frames handled in one |
| Receiver.BinaryStep | client/script.js:174-183 | after a metadata frame a binary fragment is buffered and counted, and the buffer is delivered exactly when the count reaches the announced size |
| Receiver.MetaStartsAfresh | client/script.js:163-172 | a metadata frame of any size delivers nothing, empties the buffer, zeroes the count, and records the name, the size and the type, or `application/octet-stream` when the type is empty |
| Receiver.MetaForgetsThePast | client/script.js:168-169 | what happens after a metadata frame does not depend on earlier frames, so a partly received file is dropped silently |
| Receiver.ReassemblesOnLastFragment | client/script.js:176-183 | non-empty fragments adding up to the announced size are delivered once, on the last fragment, as all of them joined in order |
| Receiver.FortyThousandByteFile | client/script.js:176-183 | for a 40000-byte file in frames of 16384, 16384 and 7232 bytes nothing is delivered after 32768 bytes, and one 40000-byte file after the third frame |
| Receiver.SurplusFrameDeliversAgain | client/script.js:181-185 | after completion, a further binary frame delivers everything received so far, surplus included |
| Receiver.NothingBeforeMeta | client/script.js:145-147 | binary frames before any metadata frame are never delivered |
| Receiver.ChannelReceiver.constructor | client/script.js:145-147 | the handler starts with an empty buffer, a zero count, no current file and nothing delivered |
| Receiver.ChannelReceiver.OnMessage | client/script.js:161-186 | the handler's fields become the state of the receive step, its deliveries are appended, and the count stays equal to the buffered length |
| Receiver.ReceiveAsWritten | client/script.js:161-186 | with `currentFileName`, `currentFileType` and `expectedFileSize` declared, the handler as written: the same state updates as `Receive`, but the completion branch throws instead of delivering |
| Receiver.AsWrittenLosesCompletedFile | client/script.js:181-184 | with `currentFileName`, `currentFileType` and `expectedFileSize` declared (the literal module throws earlier, at :165 and :179), as written, the 40000-byte file throws on its last frame, where the intended handler delivers it |
| Receiver.AsWrittenThrowsWhereReceiveDelivers | client/script.js:181-184 | with `currentFileName`, `currentFileType` and `expectedFileSize` declared (the literal module throws earlier, at :165 and :179), the handler as written goes through the same states as the intended one and throws exactly where that one delivers |
| Transfer.RoundTrip | sender.js:202-231 | the frames of a file's transcript, under any pacing and from any receiver state, deliver a non-empty file exactly once with its name, type and bytes, and never deliver an empty one |
| Transfer.QueueRoundTrip | sender.js:189-199 | a queue sent in full is delivered as its non-empty files, in order, and nothing else |
| Transfer.GeneratedSessionIsAccepted | sender.js:21-40 | a valid generated id and token, typed in any case and with any surrounding whitespace, connect as generated through the manual handler, and connect unchanged through the QR path |
| Transfer.ConnectedSessionIsAdmitted | server/server.js:74-102 | a session the connect button connects to, through the manual handler or the handler installed after a valid QR load, passes the server's validation: the join is refused only for a room holding another token, and otherwise makes the sender the room's last member under that token |

## Left out

- Network and browser plumbing are not part of this model. This covers WebSocket and HTTP set-up, the TURN-credential endpoint and `fetchTurnServers`, and the disabled JWT hook with `getJWT`. It also covers WebRTC negotiation (offers, answers, ICE candidates, connection-state callbacks), the keep-alive timer, the DOM, QR rendering and the download link.
- When a transport starts closing (a close frame from the peer, a socket error) is not modelled: `Server.SignalingServer.TransportClosing` is called for it, at any point before the connection's 'close' event.
- JSON parsing is not modelled. A message arrives already classified as a join, another signalling message, a binary frame or malformed text. A signalling body is forwarded as an opaque string.
- Input coercions are not modelled: `String(...)` of non-string join fields, and a JSON `null` message (on which the source fails when it reads its `type`).
- `LowerChar` covers A-Z and KELVIN SIGN (U+212A, which lower-cases to `k`). Other characters are left as they are. No other character lower-cases to a single `[a-z0-9]` character, so every validation verdict is exact. Other lower-cased strings differ from JavaScript's.
- `Helpers.SecureRandomInt` requires the byte stream to contain an accepted byte. The source's loop would keep drawing from an endless source. Likewise, the generators require enough accepted bytes for the requested length.
- `Sender.SendFile` sees the channel only through `bufferedAt`, the amount at each check. It does not model when the low-watermark event fires. Every wait is assumed to end, so the model says nothing about a wait that never ends.
- `Sender.SendFile` has one failure point per send. A failing `slice.arrayBuffer()` and a failing `dataChannel.send` of the same chunk are the same failure here.
- The sender's progress text and all status-line updates are left out.
- Sender.SendAll: the send button's handler is `async` and is not disabled while sending (sender.js:179). A second click during an `await` (sender.js:191, 213, 216) would start a second loop whose frames interleave with the first on the same channel. Overlapping clicks, and other handlers running at the await points, are not modelled: each click's sending is taken to run uninterrupted, and `Transfer.QueueRoundTrip` relies on that.
- Text frames other than `meta:` frames are left out on the receiving side, because the frame type has no such frame. The source would treat one as binary data with an undefined length.
- On the receiving page, `currentFileName`, `currentFileType` and `expectedFileSize` are assigned without being declared. The page script is an ES module (client/script.js:1), so it runs in strict mode. There the assignment at client/script.js:165 throws on every metadata frame, before the resets at :168-169, and the read at :179 throws on every binary frame, before the completion test at :181. The model, including `Receiver.ReceiveAsWritten`, assumes the three variables are declared and models them as the intended per-channel state, with no current file before the first metadata frame. The unused `fileSize` variable is left out.
- The call of an undefined function when a file completes is recorded under Findings. The rest of the model delivers the file as evidently intended.

## Findings

| source | as written | input that shows it | evidently intended | confidence | as-written member | corrected member |
|---|---|---|---|---|---|---|
| client/script.js:183 | the completed file is passed to `addReceivedFile`, which the page does not define (only `saveReceivedFile` exists), so the handler throws and the file never reaches the page | a metadata frame for 40000 bytes followed by binary frames of 16384, 16384 and 7232 bytes | hand the assembled file to the page (`saveReceivedFile`) | medium (another script could define the name globally); assumes the three undeclared variables are declared, since the literal module throws earlier at :165 and :179; not executed | Receiver.AsWrittenLosesCompletedFile | Receiver.BinaryDeliversWhenComplete |
