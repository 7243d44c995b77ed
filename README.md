# Talk-Locally: a verified model of the block store and the node's decisions

Talk-Locally is a peer-to-peer chat for a local network. Nodes find each
other over mDNS and talk over GossipSub topics. A node announces the room it
is in on a shared directory topic. Users can drop files into a
process-wide, content-addressed block store and read them back by CID.

This project models two parts of it in Dafny.

- **The block store** (`internal/fileshare/fileShare.go`, module
  `FileShare`, file `fileshare.dfy`). The package globals `store` and `once`
  become the class `FileShare.BlockStore`. Its methods `InitBlockstore`,
  `AddFileToOfflineStore` and `RetrieveFileFromStore` update the state in
  place. Each is proved against a specification function on values:
  `Init`, `Add` and `Retrieve`. The hash behind a CID is an uninterpreted
  function `hash`, so the CID depends on the bytes alone. The outcomes of
  `os.ReadFile` and of the blockstore's `Put` are inputs.
- **The node's control decisions** (`cmd/clinode/main.go`, module `CliNode`,
  file `clinode.dfy`):
  - which side of a pair of peers dials;
  - the `discoveredRooms` set and its listing;
  - the periodic room announcement;
  - the nick default;
  - the main menu;
  - the in-room line handler.

  The globals `cr` and `discoveredRooms` become fields of the class
  `CliNode.Node`. The menu loop and the in-room loop are methods with
  `while` loops, proved against the trace functions `MenuTrace` and
  `SessionTrace`. What the outside world answers is an input of each step:
  connect, publish, file read, `Put`, CID decode and room join. What the
  node does to the outside world is a list of `Action`s: publish, add a
  file, retrieve a file, stop, or skip the rest of a line's handling (a
  `continue` in the in-room loop). Printing is not an action.
- **Go string semantics** (module `GoStrings`, file `gostrings.dfy`):
  - `strings.TrimSpace` with the `unicode.IsSpace` set, which every menu
    choice and every room line goes through;
  - Go's bytewise order on strings, which the peer-ID comparison uses.

Three behaviours of the code are worth stating plainly, because the model
keeps them:

- **Dial direction.** At `cmd/clinode/main.go:73` a node waits when the
  discovered peer's ID is greater than its own and dials otherwise. So of
  two peers, the one with the larger ID dials and the other waits.
- **Retrieval error.** `internal/fileshare/fileShare.go:60-63` wraps every
  `Get` error with `%v`. A missing block and a failing datastore look the
  same to the caller, so the model has one generic `GetFailed`.
- **Leaving a room.** `/exit` only breaks the in-room loop
  (`cmd/clinode/main.go:188-191`) and leaves `cr` set. The room left stays
  active, and the announce goroutine keeps publishing its name.
  `CliNode.RoomOutlivesSession` proves this.

## Model

| member | source | states |
|---|---|---|
| FileShare.NewBlock | internal/fileshare/fileShare.go:42 | A new block holds exactly the given bytes, and its address is never the zero CID. |
| FileShare.Init | internal/fileshare/fileShare.go:21-28 | After initBlockstore the store exists. A store that already exists is returned unchanged; a new one is empty. |
| FileShare.Put | internal/fileshare/fileShare.go:45 | After Put the block is held under its address. No other entry appears, disappears or changes. |
| FileShare.Get | internal/fileshare/fileShare.go:60-66 | Get succeeds exactly when the address is held, and returns the held bytes. Any other outcome is the single error GetFailed. |
| FileShare.Add | internal/fileshare/fileShare.go:31-52 | A failed read returns the zero CID and ReadFailed, and the store is neither created nor changed. A failed put returns the zero CID and PutFailed, after creating the store. The error is absent exactly when both succeed; then the CID is NewBlock's address for the bytes, and the held addresses grow by that CID only. |
| FileShare.Retrieve | internal/fileshare/fileShare.go:55-67 | Retrieve first creates the store if needed. It succeeds exactly when the address is held and returns those bytes; otherwise it fails with GetFailed. |
| FileShare.AddThenRetrieve | internal/fileshare/fileShare.go:42-66 | Adding bytes and then retrieving the returned CID gives back exactly those bytes. |
| FileShare.AddDeterministic | internal/fileshare/fileShare.go:42-51 | Two successful adds of the same bytes return the same CID, whatever the store held before. That CID is never the zero CID. |
| FileShare.ReAddUnchanged | internal/fileshare/fileShare.go:45 | Re-adding bytes the store already holds leaves the whole store unchanged. |
| FileShare.AddFrame | internal/fileshare/fileShare.go:45 | A successful add leaves every entry at any other address exactly as it was, both its presence and its bytes. |
| FileShare.AddWellFormed | internal/fileshare/fileShare.go:31-52 | Every add, whatever its outcome, keeps each entry stored under the address of its own bytes. A store that was never created stays empty. |
| FileShare.RetrieveIntegrity | internal/fileshare/fileShare.go:55-67 | A retrieve keeps the store well formed. Bytes it returns always hash to the CID that was asked for. |
| FileShare.RetrievableIffAdded | internal/fileshare/fileShare.go:16-19 | The store belongs to its process. Starting from a fresh process, after any run of adds and retrieves, a CID can be retrieved exactly when one of the adds in that run stored bytes with that CID. |
| FileShare.ApplyKeys | internal/fileshare/fileShare.go:31-67 | After a run of calls the store holds the addresses it held before plus those the run added. |
| FileShare.BlockStore.constructor | internal/fileshare/fileShare.go:16-19 | The package starts with no blockstore created. |
| FileShare.BlockStore.InitBlockstore | internal/fileshare/fileShare.go:21-28 | The new state is Init of the old one. At most one blockstore is ever created, and a later call changes nothing. |
| FileShare.BlockStore.AddFileToOfflineStore | internal/fileshare/fileShare.go:31-52 | The returned CID, the error and the new state are those of Add. On success the bytes are held under the returned CID. A failed read leaves the object untouched. |
| FileShare.BlockStore.RetrieveFileFromStore | internal/fileshare/fileShare.go:55-67 | The result and the new state are those of Retrieve. Bytes returned always hash to the requested CID. |
| GoStrings.IsSpace | cmd/clinode/main.go:133 | The white space TrimSpace strips is unicode.IsSpace. Within ASCII it is exactly space, tab, line feed, vertical tab, form feed and carriage return. |
| GoStrings.TrimSpace | cmd/clinode/main.go:133 | The result is no longer than the input. It is empty, or it neither starts nor ends with white space. |
| GoStrings.TrimSpaceSlice | cmd/clinode/main.go:133 | The trimmed string is a contiguous slice of the input, and only white space lies on either side of it. |
| GoStrings.TrimSpaceIdempotent | cmd/clinode/main.go:186 | Trimming a trimmed line changes nothing. |
| GoStrings.TrimSpacePadded | cmd/clinode/main.go:150 | A word with no white space at either end, padded with white space on both sides, trims back to the word. |
| GoStrings.Less | cmd/clinode/main.go:73 | Go's order on peer IDs, compared byte by byte. A proper prefix comes before the longer ID, and no ID comes before one of its own prefixes. |
| GoStrings.LessIrreflexive | cmd/clinode/main.go:73 | No peer ID is greater than itself. |
| GoStrings.LessAsymmetric | cmd/clinode/main.go:73 | Two IDs are never each greater than the other. |
| GoStrings.LessConnected | cmd/clinode/main.go:73 | Of two different IDs, one is greater than the other. |
| GoStrings.LessTransitive | cmd/clinode/main.go:73 | The order on IDs is transitive. |
| CliNode.NickOrDefault | cmd/clinode/main.go:88-91 | The nick is never empty. A non-empty flag is kept as it is; an empty flag becomes "KUNJ". |
| CliNode.Dials | cmd/clinode/main.go:73-79 | The local node dials when its own ID is greater than the peer's, and also when the two are equal. It waits when the peer's ID is greater. |
| CliNode.ExactlyOneDials | cmd/clinode/main.go:73-79 | For two distinct peers exactly one side dials: the one whose ID is greater. |
| CliNode.OnPeerFound | cmd/clinode/main.go:73-83 | The node waits exactly when the peer's ID is greater than its own. Otherwise it makes one connection attempt, whose outcome is the connect outcome given. |
| CliNode.Observed | cmd/clinode/main.go:110-116 | The discovered set after a run of directory messages is the old set together with every room name received. |
| CliNode.ObservedIdempotent | cmd/clinode/main.go:111-115 | The discovered set only grows. Receiving the same names again, or the same run twice, changes nothing. |
| CliNode.PublishWithRetry | cmd/clinode/main.go:231-234 | A publish is one attempt if the first succeeds and exactly two if it fails. Both attempts carry the same text on the same topic. |
| CliNode.CommandOf | cmd/clinode/main.go:188-229 | A trimmed line is recognised as /exit, /send-file or /get-file exactly when it is that word, and as blank exactly when it is empty. |
| CliNode.LineStep | cmd/clinode/main.go:181-235 | The room is left exactly when the trimmed line is "/exit"; then the only action is Stop and the store is untouched. An empty line is skipped. /send-file first adds the file at the trimmed path and changes the store as Add does. /get-file with an undecodable CID only skips; with a decoded CID it first retrieves that CID and changes the store as Retrieve does. No other line touches the store. A line that neither leaves nor reaches the publish ends with Skip. |
| CliNode.LineStepSplit | cmd/clinode/main.go:193-234 | A line's actions are its file command's own action, then the rest. The command's action is the add of the trimmed path for /send-file, the retrieve of the decoded CID for /get-file, and nothing otherwise. The rest is the publish with retry exactly when the line reaches line 231. Otherwise it is Stop for "/exit" and Skip for any other line. |
| CliNode.LineStepPublishes | cmd/clinode/main.go:186-234 | A line publishes something exactly when it is neither "/exit" nor empty and its file command, if any, succeeded. It then publishes the trimmed line, command word included: once if the first attempt succeeds, twice if it fails. Every publish is on the room's topic. |
| CliNode.SessionTrace | cmd/clinode/main.go:181-235 | The in-room loop handles lines in order until one leaves the room. A session that leaves the room ends with the action Stop. |
| CliNode.SessionLeftIffExit | cmd/clinode/main.go:181-191 | A session leaves the room exactly when one of its lines is "/exit". Otherwise it runs until input ends. |
| CliNode.LinePublishesAtMostTwice | cmd/clinode/main.go:231-234 | One line publishes at most two texts. |
| CliNode.SessionPublishesAtMostTwicePerLine | cmd/clinode/main.go:181-235 | A session of n lines publishes at most 2n texts. |
| CliNode.SessionStopsAtExit | cmd/clinode/main.go:188-191 | No line after the first "/exit" is read: the session equals the session cut just after that line. |
| CliNode.LineChatOnly | cmd/clinode/main.go:186-234 | Every publish from one line is a trimmed, non-empty line other than "/exit", on the room's topic. |
| CliNode.SessionPublishesOnlyChat | cmd/clinode/main.go:181-235 | A whole session publishes only trimmed, non-empty lines other than "/exit", and only on its room's topic. |
| CliNode.Dispatch | cmd/clinode/main.go:133-135 | The choice is "list", "join" or "quit" exactly when the trimmed input is "1", "2" or "3" respectively; anything else is invalid. |
| CliNode.DispatchIgnoresPadding | cmd/clinode/main.go:133-135 | White space around a choice does not change what it selects. |
| CliNode.MenuStep | cmd/clinode/main.go:133-243 | Only joining changes the state. The node stops exactly on "3", or on a successful join whose session never types "/exit". A successful join makes the trimmed name the active room and yields that room's session. A failed join clears the active room. "3" yields Stop. Listing, a failed join and an invalid choice only print, so they yield no action. |
| CliNode.MenuTrace | cmd/clinode/main.go:122-244 | The menu loop runs passes in order until one stops the node. Passes that join no room leave the node's state unchanged. |
| CliNode.RoomOutlivesSession | cmd/clinode/main.go:152-191 | Take a pass that joins a room and types "/exit" in it, followed by passes that join no room. After all of them that room is still the active one, so it is still announced. |
| CliNode.Node.constructor | cmd/clinode/main.go:41-42 | At start no room is active and no room has been heard of. The nick is the defaulted flag. |
| CliNode.Node.DiscoverPeers | cmd/clinode/main.go:69-85 | The node makes one decision per notification, in order: it waits exactly when the peer's ID is greater, and otherwise makes one connection attempt with no retry. |
| CliNode.Node.Announce | cmd/clinode/main.go:100-107 | A tick publishes something exactly when a room is active, and then it publishes that room's name on the directory topic. |
| CliNode.Node.ReceiveRooms | cmd/clinode/main.go:110-116 | The discovered set becomes Observed of the old set and the messages. The active room does not change. |
| CliNode.Node.ListRooms | cmd/clinode/main.go:136-142 | The listing names every discovered room and nothing else, each exactly once. |
| CliNode.Node.HandleLine | cmd/clinode/main.go:181-235 | The actions, the leave flag and the new store are those of LineStep for the active room. |
| CliNode.Node.Session | cmd/clinode/main.go:181-235 | The actions, the way the session ended and the new store are those of SessionTrace for the active room. |
| CliNode.Node.MenuRound | cmd/clinode/main.go:122-243 | The actions, the stop flag and the new node state are those of MenuStep. The discovered set does not change. |
| CliNode.Node.MenuLoop | cmd/clinode/main.go:122-244 | The actions, the stop flag and the final node state are those of MenuTrace. The discovered set does not change. |

## Left out

- libp2p, GossipSub and mDNS are not part of this model. These are host creation, the discovery channel, joining topics, message delivery, the chat envelope and filtering out the node's own messages. Their outcomes are inputs (`connectOk`, `joinOk`, `publishOk`), and incoming directory messages are a sequence of room names.
- Concurrency is left out: the goroutines, the mutex around `discoveredRooms`, and `sync.Once`'s thread safety. Each goroutine is modelled as a sequential method. Mutual exclusion and the interleavings of the goroutines are not captured.
- The five-second announce period is left out. `CliNode.Node.Announce` is a single tick.
- Terminal and file I/O is left out: stdin, the separate `bufio.Reader` and `bufio.Scanner`, coloured output, appends to `logs.txt`, and printing the listing and retrieved data. A failed terminal read ends in `log.Fatal`. Inside a room this is modelled as the end of the session's lines (`InputClosed`). At the menu prompts it is not modelled (see `CliNode.MenuTrace` below). `os.Exit` on "3" is the action Stop.
- `os.ReadFile` is only an outcome: bytes or a failure. The path read after `/send-file` is recorded in the `AddFile` action, but is not tied to those bytes.
- CID internals are left out: the SHA-256 multihash, the CIDv0 prefix, `cid.Decode` and `Cid.String`. The hash is uninterpreted, and decoding the CID text is an input (`decoded`). No encode/decode round trip is claimed.
- FileShare.BlockStore: entries are keyed by the whole CID. The boxo blockstore keys them by multihash, which cannot be seen apart from the hash here.
- FileShare.Add: a failed `Put` is modelled as leaving the map unchanged. The datastore's behaviour on a failed write is not part of this model.
- CliNode.MenuStep: after a failed `JoinChatRoom`, `cr` is modelled as nil (no active room). What the p2p package actually returns with an error is not part of this model.
- CliNode.Node.ListRooms: Go's map iteration order is random. The model lists the rooms in an unspecified order and proves nothing about the order.
- The room-message goroutine that prints and logs incoming chat is not modelled, because it only does I/O.
- CliNode.MenuTrace: running out of menu passes means the node is still waiting at the menu prompt, so the result is not stopped. The `log.Fatal` on a failed read of the choice (`cmd/clinode/main.go:129-131`) or of the room name (`:146-149`) is not modelled. By contrast, a session that runs out of lines is taken as the `log.Fatal` on a failed read inside the room (`:182-184`), and the node stops.
- CliNode.MenuStep: after a successful join the node opens `logs.txt` (`cmd/clinode/main.go:161-164`), and if that fails it stops with `log.Fatal` before any line is read. The model always runs the session, as if the open succeeds.
- Room names, typed lines and published text are Dafny strings, that is, sequences of Unicode characters. Go strings are bytes, so invalid UTF-8 cannot be represented here. `strings.TrimSpace` treats each invalid byte as a non-space and stops at it; that case is not captured. Peer IDs are modelled as bytes.
- CliNode.Node.Announce: it publishes the name the model keeps as the active room, which is the trimmed name passed to `JoinChatRoom`. The source publishes `cr.RoomName()` from the p2p package, which is not part of this model. The model assumes the two are the same.
- FileShare.Put: it overwrites any entry already held under the block's CID. `FileShare.AddThenRetrieve` holds for every hash only because of this. If two different byte strings had the same hash, retrieving the first one's CID would return whichever was added last. Whether the blockstore's `Put` overwrites is not part of this model.
