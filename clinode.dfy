/** The decisions the command-line node makes, pulled out of its goroutines
    and its terminal loops: which side of a pair of peers dials, the set of
    rooms heard of on the directory topic, the periodic room announcement,
    the main menu, and the handling of each line typed inside a room.
    Everything the node learns from the network, the terminal or the file
    system (a connect outcome, a publish outcome, a file's contents, a decoded
    CID) is an input, so that each step is a deterministic transition. */
module CliNode {
  import opened Common
  import opened GoStrings
  import opened FileShare

  /** A libp2p peer ID: a Go string of raw bytes. */
  type PeerId = Bytes

  /** The nick used in chat: the --nick flag, or "KUNJ" when it is empty. */
  function NickOrDefault(flag: string): (nick: string)
    ensures nick != []
    ensures flag != [] ==> nick == flag
    ensures flag == [] ==> nick == "KUNJ"
  {
    if |flag| == 0 then "KUNJ" else flag
  }

  // ---------------------------------------------------------------------
  // Connection arbitration

  /** The local node dials a discovered peer unless the peer's ID is greater
      than its own; otherwise it waits for the peer to dial. */
  predicate Dials(local: PeerId, remote: PeerId): (d: bool)
    ensures Less(remote, local) ==> d
    ensures Less(local, remote) ==> !d
    ensures local == remote ==> d
  {
    LessAsymmetric(remote, local);
    LessIrreflexive(local);
    !Less(local, remote)
  }

  /** For two distinct peers exactly one side dials: the one with the larger
      ID. */
  lemma {:induction false} ExactlyOneDials(a: PeerId, b: PeerId)
    requires a != b
    ensures Dials(a, b) != Dials(b, a)
    ensures Dials(a, b) <==> Less(b, a)
  {
    LessAsymmetric(a, b);
    LessConnected(a, b);
  }

  /** A notification from mDNS discovery, with the outcome h.Connect would
      have if it were called. */
  datatype PeerNotice = PeerNotice(id: PeerId, connectOk: bool)

  /** What the discovery goroutine does with one notification: wait for the
      peer, or make one connection attempt, which succeeds or fails. */
  datatype PeerOutcome = Wait | Connect(ok: bool)

  function OnPeerFound(local: PeerId, n: PeerNotice): (o: PeerOutcome)
    ensures o.Wait? <==> Less(local, n.id)
    ensures o.Connect? ==> o.ok == n.connectOk
  {
    if Less(local, n.id) then Wait else Connect(n.connectOk)
  }

  // ---------------------------------------------------------------------
  // Rooms heard of on the directory topic

  /** The discovered-room set after receiving the given directory messages:
      every message adds its room name, nothing is ever taken out. */
  function Observed(rooms: set<string>, msgs: seq<string>): (r: set<string>)
    ensures r == rooms + set m | m in msgs
    decreases |msgs|
  {
    if msgs == [] then rooms
    else
      var r := Observed(rooms + {msgs[0]}, msgs[1..]);
      assert (set m | m in msgs) == {msgs[0]} + set m | m in msgs[1..];
      r
  }

  /** Receiving names is idempotent: hearing the same messages again, or a
      name already in the set, changes nothing, and the set only grows. */
  lemma ObservedIdempotent(rooms: set<string>, msgs: seq<string>)
    ensures rooms <= Observed(rooms, msgs)
    ensures Observed(Observed(rooms, msgs), msgs) == Observed(rooms, msgs)
    ensures Observed(rooms, msgs + msgs) == Observed(rooms, msgs)
  {
    assert (set m | m in msgs + msgs) == set m | m in msgs;
  }

  predicate NoDuplicates(s: seq<string>) {
    forall i, j :: 0 <= i < j < |s| ==> s[i] != s[j]
  }

  // ---------------------------------------------------------------------
  // What the node does to the outside world

  /** A gossip topic: the fixed room-directory topic, or a chat room's. */
  datatype Topic = Directory | Room(name: string)

  /** What the node does to the outside world. Stop ends the session or the
      process; Skip is a line handler's `continue`, which abandons the rest
      of the line's handling. Printing is not an action. */
  datatype Action =
    | Publish(topic: Topic, text: string)
    | AddFile(path: string)
    | RetrieveFile(cid: Cid)
    | Stop
    | Skip

  /** The text an action publishes, if it is a publish. */
  function TextOf(a: Action): seq<string> {
    if a.Publish? then [a.text] else []
  }

  /** The texts published, in order. */
  function Publications(acts: seq<Action>): (texts: seq<string>)
    decreases |acts|
  {
    if acts == [] then [] else TextOf(acts[0]) + Publications(acts[1..])
  }

  lemma {:induction false} PublicationsAppend(a: seq<Action>, b: seq<Action>)
    ensures Publications(a + b) == Publications(a) + Publications(b)
    decreases |a|
  {
    if a == [] {
      assert a + b == b;
    } else {
      var ab := a + b;
      assert ab[0] == a[0];
      assert ab[1..] == a[1..] + b;
      calc {
        Publications(ab);
        TextOf(a[0]) + Publications(a[1..] + b);
        { PublicationsAppend(a[1..], b); }
        TextOf(a[0]) + (Publications(a[1..]) + Publications(b));
        (TextOf(a[0]) + Publications(a[1..])) + Publications(b);
      }
    }
  }

  /** cr.Publish(line), and once more if the first attempt fails. */
  function PublishWithRetry(topic: Topic, text: string, firstOk: bool): (r: seq<Action>)
    ensures |r| == (if firstOk then 1 else 2)
    ensures forall i :: 0 <= i < |r| ==> r[i] == Publish(topic, text)
    ensures Publications(r) == if firstOk then [text] else [text, text]
  {
    var p := Publish(topic, text);
    var r := if firstOk then [p] else [p, p];
    assert Publications(r) == [text] + Publications(r[1..]);
    r
  }

  // ---------------------------------------------------------------------
  // A line typed inside a room

  /** One line read inside a room, with the answers of the outside world to
      whatever handling it needs: the line that follows it (the file path or
      the CID text, read only for /send-file and /get-file), the outcome of
      os.ReadFile on that path, of the blockstore's Put, of cid.Decode on the
      CID text, and of the first cr.Publish. */
  datatype LineInput = LineInput(
    raw: string,
    argument: string,
    file: Option<Bytes>,
    putOk: bool,
    decoded: Option<Cid>,
    publishOk: bool)

  /** What handling one line emits, whether it leaves the room, and the store
      it leaves behind. */
  datatype LineResult = LineResult(actions: seq<Action>, leave: bool, store: Store)

  /** How the handler reads a trimmed line. */
  datatype Command = Exit | SendFile | GetFile | Blank | Chat

  /** The handler's tests on the trimmed line, in the order it makes them. */
  function CommandOf(line: string): (c: Command)
    ensures c == Exit <==> line == "/exit"
    ensures c == SendFile <==> line == "/send-file"
    ensures c == GetFile <==> line == "/get-file"
    ensures c == Blank <==> line == ""
  {
    if line == "/exit" then Exit
    else if line == "/send-file" then SendFile
    else if line == "/get-file" then GetFile
    else if line == "" then Blank
    else Chat
  }

  /** When a line gets published at all: it is neither "/exit" nor empty once
      trimmed, and the file command it names, if any, succeeded. A command
      word that succeeds is itself published as chat text. */
  predicate ReachesPublish(st: Store, hash: Hasher, input: LineInput) {
    var line := TrimSpace(input.raw);
    && line != "/exit"
    && line != ""
    && (line == "/send-file" ==> Add(st, hash, input.file, input.putOk).err.None?)
    && (line == "/get-file" ==>
          input.decoded.Some? && Retrieve(st, input.decoded.value).0.Success?)
  }

  /** The in-room line handler: trim the line; "/exit" leaves; "/send-file"
      adds the named file to the block store and "/get-file" retrieves a
      block by CID, either of them skipping the rest of the line's handling
      on failure; an empty line is skipped; anything that gets this far is
      published, with one retry. */
  function LineStep(room: string, st: Store, hash: Hasher, input: LineInput): (r: LineResult)
    ensures r.leave <==> TrimSpace(input.raw) == "/exit"
    ensures r.leave ==> r.actions == [Stop] && r.store == st
    ensures TrimSpace(input.raw) == "" ==> r.actions == [Skip] && r.store == st
    ensures TrimSpace(input.raw) == "/send-file" ==>
              r.store == Add(st, hash, input.file, input.putOk).store
    ensures TrimSpace(input.raw) == "/get-file" ==>
              r.store == if input.decoded.Some? then Retrieve(st, input.decoded.value).1 else st
    ensures TrimSpace(input.raw) !in {"/send-file", "/get-file"} ==> r.store == st
    ensures r.actions != []
    ensures TrimSpace(input.raw) == "/send-file" ==> r.actions[0] == AddFile(TrimSpace(input.argument))
    ensures TrimSpace(input.raw) == "/get-file" && input.decoded.None? ==> r.actions == [Skip]
    ensures TrimSpace(input.raw) == "/get-file" && input.decoded.Some? ==>
              r.actions[0] == RetrieveFile(input.decoded.value)
    ensures !r.leave && !ReachesPublish(st, hash, input) ==> r.actions[|r.actions| - 1] == Skip
  {
    var line := TrimSpace(input.raw);
    var publish := PublishWithRetry(Room(room), line, input.publishOk);
    match CommandOf(line)
    case Exit => LineResult([Stop], true, st)
    case SendFile =>
      var a := Add(st, hash, input.file, input.putOk);
      var pre := [AddFile(TrimSpace(input.argument))];
      if a.err.Some? then LineResult(pre + [Skip], false, a.store)
      else LineResult(pre + publish, false, a.store)
    case GetFile =>
      if input.decoded.None? then LineResult([Skip], false, st)
      else
        var c := input.decoded.value;
        var (data, st') := Retrieve(st, c);
        if data.Failure? then LineResult([RetrieveFile(c), Skip], false, st')
        else LineResult([RetrieveFile(c)] + publish, false, st')
    case Blank => LineResult([Skip], false, st)
    case Chat => LineResult(publish, false, st)
  }

  lemma {:induction false} PublicationsNone(a: seq<Action>)
    requires forall i :: 0 <= i < |a| ==> !a[i].Publish?
    ensures Publications(a) == []
    decreases |a|
  {
    if a != [] {
      PublicationsNone(a[1..]);
    }
  }

  /** A handled line's actions are the file command's own action (the add
      of the named file, or the retrieve of a decoded CID), followed by
      either the publication with retry or a single Stop or Skip; the
      publication comes exactly when the line reaches it. */
  lemma LineStepSplit(room: string, st: Store, hash: Hasher, input: LineInput)
    returns (pre: seq<Action>, tail: seq<Action>)
    ensures var line := TrimSpace(input.raw);
            var publish := PublishWithRetry(Room(room), line, input.publishOk);
            && LineStep(room, st, hash, input).actions == pre + tail
            && (line == "/send-file" ==> pre == [AddFile(TrimSpace(input.argument))])
            && (line == "/get-file" && input.decoded.Some? ==> pre == [RetrieveFile(input.decoded.value)])
            && (line != "/send-file" && (line != "/get-file" || input.decoded.None?) ==> pre == [])
            && (forall i :: 0 <= i < |pre| ==> !pre[i].Publish?)
            && (ReachesPublish(st, hash, input) ==> tail == publish)
            && (!ReachesPublish(st, hash, input) ==> tail == (if line == "/exit" then [Stop] else [Skip]))
  {
    var line := TrimSpace(input.raw);
    var publish := PublishWithRetry(Room(room), line, input.publishOk);
    match CommandOf(line)
    case Exit =>
      pre, tail := [], [Stop];
    case SendFile =>
      pre := [AddFile(TrimSpace(input.argument))];
      tail := if Add(st, hash, input.file, input.putOk).err.Some? then [Skip] else publish;
    case GetFile =>
      if input.decoded.None? {
        pre, tail := [], [Skip];
      } else {
        pre := [RetrieveFile(input.decoded.value)];
        tail := if Retrieve(st, input.decoded.value).0.Failure? then [Skip] else publish;
      }
    case Blank =>
      pre, tail := [], [Skip];
    case Chat =>
      pre, tail := [], publish;
  }

  /** What a line publishes: nothing unless it reaches the publish, and then
      the trimmed line (command word included) on the room's topic, once if
      the first attempt succeeds and twice if it fails. */
  lemma LineStepPublishes(room: string, st: Store, hash: Hasher, input: LineInput)
    ensures var r := LineStep(room, st, hash, input);
            var line := TrimSpace(input.raw);
            && (Publications(r.actions) != [] <==> ReachesPublish(st, hash, input))
            && (ReachesPublish(st, hash, input) ==>
                  Publications(r.actions) == if input.publishOk then [line] else [line, line])
            && (forall i :: 0 <= i < |r.actions| && r.actions[i].Publish? ==>
                  r.actions[i] == Publish(Room(room), line) && ReachesPublish(st, hash, input))
  {
    var pre, tail := LineStepSplit(room, st, hash, input);
    SplitPublishes(pre, tail, Room(room), TrimSpace(input.raw), input.publishOk,
                   ReachesPublish(st, hash, input));
  }

  /** A line is published at most twice: once, and once more on retry. */
  lemma LinePublishesAtMostTwice(room: string, st: Store, hash: Hasher, input: LineInput)
    ensures |Publications(LineStep(room, st, hash, input).actions)| <= 2
  {
    LineStepPublishes(room, st, hash, input);
  }

  /** The publications of actions split as in LineStepSplit. */
  lemma SplitPublishes(pre: seq<Action>, tail: seq<Action>, topic: Topic, line: string,
                       ok: bool, reaches: bool)
    requires forall i :: 0 <= i < |pre| ==> !pre[i].Publish?
    requires reaches ==> tail == PublishWithRetry(topic, line, ok)
    requires !reaches ==> |tail| == 1 && !tail[0].Publish?
    ensures Publications(pre + tail) != [] <==> reaches
    ensures reaches ==> Publications(pre + tail) == if ok then [line] else [line, line]
    ensures forall i :: 0 <= i < |pre + tail| && (pre + tail)[i].Publish? ==>
              (pre + tail)[i] == Publish(topic, line) && reaches
  {
    PublicationsNone(pre);
    PublicationsAppend(pre, tail);
    if !reaches {
      PublicationsNone(tail);
    }
    var acts := pre + tail;
    forall i | 0 <= i < |acts| && acts[i].Publish?
      ensures acts[i] == Publish(topic, line) && reaches
    {
      assert acts[i] == tail[i - |pre|];
    }
  }

  // ---------------------------------------------------------------------
  // A session inside a room

  /** A session ends on "/exit", or when the terminal input runs out (where
      the node stops with log.Fatal). */
  datatype SessionEnd = Left | InputClosed

  datatype SessionResult = SessionResult(actions: seq<Action>, ended: SessionEnd, store: Store)

  function Prepend(acts: seq<Action>, r: SessionResult): SessionResult {
    r.(actions := acts + r.actions)
  }

  predicate IsExit(input: LineInput) {
    TrimSpace(input.raw) == "/exit"
  }

  /** The session loop: handle lines in order until one leaves the room. A
      session that leaves the room ends with Stop. */
  function SessionTrace(room: string, st: Store, hash: Hasher, lines: seq<LineInput>): (r: SessionResult)
    ensures r.ended == Left ==> r.actions != [] && r.actions[|r.actions| - 1] == Stop
    decreases |lines|
  {
    if lines == [] then SessionResult([], InputClosed, st)
    else
      var step := LineStep(room, st, hash, lines[0]);
      if step.leave then SessionResult(step.actions, Left, step.store)
      else Prepend(step.actions, SessionTrace(room, step.store, hash, lines[1..]))
  }

  /** A session is left exactly when one of its lines is "/exit"; otherwise
      it runs until the input is closed. */
  lemma {:induction false} SessionLeftIffExit(room: string, st: Store, hash: Hasher, lines: seq<LineInput>)
    ensures var r := SessionTrace(room, st, hash, lines);
            r.ended == Left <==> exists k :: 0 <= k < |lines| && IsExit(lines[k])
    decreases |lines|
  {
    if lines != [] {
      var step := LineStep(room, st, hash, lines[0]);
      if !step.leave {
        SessionLeftIffExit(room, step.store, hash, lines[1..]);
        ExitInTail(lines);
      }
    }
  }

  /** An "/exit" among the lines is the first line or an "/exit" among the rest. */
  lemma ExitInTail(lines: seq<LineInput>)
    requires lines != []
    ensures (exists k :: 0 <= k < |lines| && IsExit(lines[k])) <==>
            IsExit(lines[0]) || exists k :: 0 <= k < |lines| - 1 && IsExit(lines[1..][k])
  {
    if exists k :: 0 <= k < |lines| && IsExit(lines[k]) {
      var k :| 0 <= k < |lines| && IsExit(lines[k]);
      if k > 0 {
        assert lines[1..][k - 1] == lines[k];
      }
    }
    if exists k :: 0 <= k < |lines| - 1 && IsExit(lines[1..][k]) {
      var k :| 0 <= k < |lines| - 1 && IsExit(lines[1..][k]);
      assert lines[k + 1] == lines[1..][k];
    }
  }

  /** A session publishes at most two texts per line read. */
  lemma {:induction false} SessionPublishesAtMostTwicePerLine(room: string, st: Store, hash: Hasher, lines: seq<LineInput>)
    ensures |Publications(SessionTrace(room, st, hash, lines).actions)| <= 2 * |lines|
    decreases |lines|
  {
    if lines != [] {
      var step := LineStep(room, st, hash, lines[0]);
      LinePublishesAtMostTwice(room, st, hash, lines[0]);
      if !step.leave {
        var rest := SessionTrace(room, step.store, hash, lines[1..]);
        SessionPublishesAtMostTwicePerLine(room, step.store, hash, lines[1..]);
        PublicationsAppend(step.actions, rest.actions);
      }
    }
  }

  /** Nothing after the first "/exit" is read: the session over all the lines
      is the session over the lines up to and including that "/exit". */
  lemma {:induction false} SessionStopsAtExit(room: string, st: Store, hash: Hasher, lines: seq<LineInput>, k: nat)
    requires k < |lines| && IsExit(lines[k])
    ensures SessionTrace(room, st, hash, lines) == SessionTrace(room, st, hash, lines[..k + 1])
    decreases k
  {
    var step := LineStep(room, st, hash, lines[0]);
    assert lines[..k + 1][0] == lines[0];
    if k > 0 && !step.leave {
      assert lines[1..][k - 1] == lines[k];
      SessionStopsAtExit(room, step.store, hash, lines[1..], k - 1);
      assert lines[..k + 1][1..] == lines[1..][..k];
    }
  }

  /** Every publication among the actions is chat on the given room: a
      trimmed, non-empty line other than "/exit". */
  predicate ChatOnly(room: string, acts: seq<Action>) {
    forall i :: 0 <= i < |acts| && acts[i].Publish? ==>
      && acts[i].topic == Room(room)
      && acts[i].text != ""
      && acts[i].text != "/exit"
      && acts[i].text == TrimSpace(acts[i].text)
  }

  lemma ChatOnlyAppend(room: string, a: seq<Action>, b: seq<Action>)
    requires ChatOnly(room, a) && ChatOnly(room, b)
    ensures ChatOnly(room, a + b)
  {
    forall i | 0 <= i < |a + b| && (a + b)[i].Publish?
      ensures (a + b)[i] == if i < |a| then a[i] else b[i - |a|]
    {
    }
  }

  lemma LineChatOnly(room: string, st: Store, hash: Hasher, input: LineInput)
    ensures ChatOnly(room, LineStep(room, st, hash, input).actions)
  {
    LineStepPublishes(room, st, hash, input);
    TrimSpaceIdempotent(input.raw);
  }

  /** Nothing a session publishes is empty or "/exit", and every publication
      is a trimmed line published on the session's own room. */
  lemma {:induction false} SessionPublishesOnlyChat(room: string, st: Store, hash: Hasher, lines: seq<LineInput>)
    ensures ChatOnly(room, SessionTrace(room, st, hash, lines).actions)
    decreases |lines|
  {
    if lines != [] {
      var step := LineStep(room, st, hash, lines[0]);
      LineChatOnly(room, st, hash, lines[0]);
      if !step.leave {
        SessionPublishesOnlyChat(room, step.store, hash, lines[1..]);
        ChatOnlyAppend(room, step.actions, SessionTrace(room, step.store, hash, lines[1..]).actions);
      }
    }
  }

  // ---------------------------------------------------------------------
  // The main menu

  datatype Choice = ListRooms | JoinRoom | Quit | Invalid

  /** The menu recognises the trimmed choices "1", "2" and "3" only. */
  function Dispatch(raw: string): (c: Choice)
    ensures c == ListRooms <==> TrimSpace(raw) == "1"
    ensures c == JoinRoom <==> TrimSpace(raw) == "2"
    ensures c == Quit <==> TrimSpace(raw) == "3"
  {
    match TrimSpace(raw)
    case "1" => ListRooms
    case "2" => JoinRoom
    case "3" => Quit
    case _ => Invalid
  }

  /** White space around a choice does not matter: " 2 \n" is the same
      choice as "2". */
  lemma {:induction false} DispatchIgnoresPadding(pre: string, w: string, post: string)
    requires AllSpace(pre) && AllSpace(post)
    requires w == [] || (!IsSpace(w[0]) && !IsSpace(w[|w| - 1]))
    ensures Dispatch(pre + w + post) == Dispatch(w)
  {
    TrimSpacePadded(pre, w, post);
    TrimSpacePadded([], w, []);
    assert [] + w + [] == w;
  }

  /** One pass of the menu loop, with what the terminal answers (the choice
      line and, for "2", the room name and the lines typed in the room) and
      whether joining the room succeeds. */
  datatype MenuEvent = MenuEvent(choice: string, roomName: string, joinOk: bool, session: seq<LineInput>)

  /** The part of the node's state the menu loop changes: the active room
      (`cr`, None for nil) and the block store. */
  datatype NodeState = NodeState(room: Option<string>, store: Store)

  datatype MenuResult = MenuResult(actions: seq<Action>, state: NodeState, stop: bool)

  /** One pass of the menu loop. "1" only lists, "2" joins the trimmed room
      name and runs a session in it, "3" exits, anything else is rejected.
      Listing, rejecting a choice and failing to join only print, so those
      passes yield no action. Leaving a room with "/exit" does not reset
      `cr`. */
  function MenuStep(s: NodeState, hash: Hasher, ev: MenuEvent): (r: MenuResult)
    ensures Dispatch(ev.choice) != JoinRoom ==> r.state == s
    ensures r.stop <==> (Dispatch(ev.choice) == Quit ||
                         (Dispatch(ev.choice) == JoinRoom && ev.joinOk &&
                          forall k :: 0 <= k < |ev.session| ==> !IsExit(ev.session[k])))
    ensures Dispatch(ev.choice) == JoinRoom && ev.joinOk ==> r.state.room == Some(TrimSpace(ev.roomName))
    ensures Dispatch(ev.choice) == JoinRoom && !ev.joinOk ==> r.state == s.(room := None) && r.actions == []
    ensures Dispatch(ev.choice) == Invalid ==> r.actions == []
    ensures Dispatch(ev.choice) == ListRooms ==> r.actions == []
    ensures Dispatch(ev.choice) == Quit ==> r.actions == [Stop]
    ensures Dispatch(ev.choice) == JoinRoom && ev.joinOk ==>
              var sr := SessionTrace(TrimSpace(ev.roomName), s.store, hash, ev.session);
              r.actions == sr.actions && r.state.store == sr.store
  {
    match Dispatch(ev.choice)
    case ListRooms => MenuResult([], s, false)
    case JoinRoom =>
      var name := TrimSpace(ev.roomName);
      if !ev.joinOk then MenuResult([], s.(room := None), false)
      else
        var sr := SessionTrace(name, s.store, hash, ev.session);
        SessionLeftIffExit(name, s.store, hash, ev.session);
        MenuResult(sr.actions, NodeState(Some(name), sr.store), sr.ended == InputClosed)
    case Quit => MenuResult([Stop], s, true)
    case Invalid => MenuResult([], s, false)
  }

  function PrependMenu(acts: seq<Action>, r: MenuResult): MenuResult {
    r.(actions := acts + r.actions)
  }

  /** None of the passes joins a room. */
  predicate NoJoin(events: seq<MenuEvent>) {
    forall i :: 0 <= i < |events| ==> Dispatch(events[i].choice) != JoinRoom
  }

  /** The menu loop: passes in order until one of them stops the node.
      Passes that join no room leave the node's state as it was. */
  function MenuTrace(s: NodeState, hash: Hasher, events: seq<MenuEvent>): (r: MenuResult)
    ensures NoJoin(events) ==> r.state == s
    decreases |events|
  {
    if events == [] then MenuResult([], s, false)
    else
      var step := MenuStep(s, hash, events[0]);
      if step.stop then step
      else
        assert forall i :: 0 <= i < |events| - 1 ==> events[1..][i] == events[i + 1];
        PrependMenu(step.actions, MenuTrace(step.state, hash, events[1..]))
  }

  /** One more pass of the menu loop, as the loop in MenuLoop takes it, when
      that pass does not stop the node: `whole` is the run so far followed
      by the passes still to come. */
  lemma MenuTraceStep(whole: MenuResult, hash: Hasher, tail: seq<MenuEvent>,
                      done: seq<Action>, s: NodeState, step: MenuResult)
    requires tail != []
    requires whole == PrependMenu(done, MenuTrace(s, hash, tail))
    requires step == MenuStep(s, hash, tail[0]) && !step.stop
    ensures whole == PrependMenu(done + step.actions, MenuTrace(step.state, hash, tail[1..]))
  {
    var rest := MenuTrace(step.state, hash, tail[1..]);
    assert done + (step.actions + rest.actions) == (done + step.actions) + rest.actions;
  }

  /** Leaving a room with "/exit" does not reset `cr`: after a pass that
      joins a room and types "/exit" in it, the room stays active through
      every later pass that does not join again, so the directory
      announcement of that room goes on. */
  lemma RoomOutlivesSession(s: NodeState, hash: Hasher, ev: MenuEvent, k: nat, rest: seq<MenuEvent>)
    requires Dispatch(ev.choice) == JoinRoom && ev.joinOk
    requires k < |ev.session| && IsExit(ev.session[k])
    requires NoJoin(rest)
    ensures MenuTrace(s, hash, [ev] + rest).state.room == Some(TrimSpace(ev.roomName))
  {
    assert !MenuStep(s, hash, ev).stop;
    assert ([ev] + rest)[0] == ev && ([ev] + rest)[1..] == rest;
  }

  // ---------------------------------------------------------------------
  // The node's globals, updated in place

  /** The process: its peer ID and nick, the package-level block store, and
      the globals `cr` (as the name of the active room) and
      `discoveredRooms`. */
  class Node {
    const local: PeerId
    const nick: string
    const files: BlockStore
    var room: Option<string>
    var discovered: set<string>

    ghost predicate Valid()
      reads this, files
    {
      files.Valid()
    }

    function State(): NodeState
      reads this, files
    {
      NodeState(room, files.State())
    }

    /** Start-up: no room joined, no room heard of, and the nick defaulted. */
    constructor (local: PeerId, nickFlag: string, files: BlockStore)
      requires files.Valid()
      ensures Valid()
      ensures this.local == local && this.files == files && nick == NickOrDefault(nickFlag)
      ensures room == None && discovered == {}
    {
      this.local := local;
      this.files := files;
      nick := NickOrDefault(nickFlag);
      room := None;
      discovered := {};
    }

    /** The discovery goroutine: one decision per notification, in order,
        and at most one connection attempt each (a failed one is dropped). */
    method DiscoverPeers(notices: seq<PeerNotice>) returns (outcomes: seq<PeerOutcome>)
      ensures |outcomes| == |notices|
      ensures forall i :: 0 <= i < |notices| ==>
                (outcomes[i].Wait? <==> Less(local, notices[i].id)) &&
                (outcomes[i].Connect? ==> outcomes[i].ok == notices[i].connectOk)
    {
      outcomes := [];
      for i := 0 to |notices|
        invariant |outcomes| == i
        invariant forall j :: 0 <= j < i ==> outcomes[j] == OnPeerFound(local, notices[j])
      {
        outcomes := outcomes + [OnPeerFound(local, notices[i])];
      }
    }

    /** One tick of the announce goroutine: publish the active room's name on
        the directory topic if a room is active; a failed publish is ignored. */
    method Announce() returns (a: Option<Action>)
      ensures a.Some? <==> room.Some?
      ensures a.Some? ==> a.value == Publish(Directory, room.value)
    {
      if room.Some? {
        a := Some(Publish(Directory, room.value));
      } else {
        a := None;
      }
    }

    /** The directory goroutine: record every room name received. */
    method ReceiveRooms(msgs: seq<string>)
      modifies this
      ensures discovered == Observed(old(discovered), msgs)
      ensures room == old(room)
    {
      var i := 0;
      while i < |msgs|
        invariant 0 <= i <= |msgs|
        invariant room == old(room)
        invariant Observed(old(discovered), msgs) == Observed(discovered, msgs[i..])
      {
        assert msgs[i..][1..] == msgs[i + 1..];
        discovered := discovered + {msgs[i]};
        i := i + 1;
      }
    }

    /** Menu choice "1": every room heard of, each exactly once. */
    method ListRooms() returns (listing: seq<string>)
      ensures forall name :: name in listing <==> name in discovered
      ensures NoDuplicates(listing)
    {
      listing := [];
      var left := discovered;
      while left != {}
        invariant left <= discovered
        invariant forall name :: name in listing <==> name in discovered && name !in left
        invariant NoDuplicates(listing)
        decreases left
      {
        var name :| name in left;
        listing := listing + [name];
        left := left - {name};
      }
    }

    /** The handling of one line typed in the active room. */
    method HandleLine(input: LineInput) returns (actions: seq<Action>, leave: bool)
      requires Valid() && room.Some?
      modifies files
      ensures Valid()
      ensures LineResult(actions, leave, files.State()) == LineStep(room.value, old(files.State()), files.hash, input)
    {
      var line := TrimSpace(input.raw);
      if line == "/exit" {
        return [Stop], true;
      }
      var pre: seq<Action> := [];
      if line == "/send-file" {
        var path := TrimSpace(input.argument);
        var c, err := files.AddFileToOfflineStore(input.file, input.putOk);
        pre := [AddFile(path)];
        if err.Some? {
          return pre + [Skip], false;
        }
      }
      if line == "/get-file" {
        if input.decoded.None? {
          return [Skip], false;
        }
        var data := files.RetrieveFileFromStore(input.decoded.value);
        pre := [RetrieveFile(input.decoded.value)];
        if data.Failure? {
          return pre + [Skip], false;
        }
      }
      if line == "" {
        return [Skip], false;
      }
      var p := Publish(Room(room.value), line);
      if input.publishOk {
        actions := pre + [p];
      } else {
        actions := pre + [p, p];
      }
      leave := false;
    }

    /** The in-room loop: lines are handled until one leaves the room or the
        input runs out. */
    method Session(lines: seq<LineInput>) returns (actions: seq<Action>, ended: SessionEnd)
      requires Valid() && room.Some?
      modifies files
      ensures Valid()
      ensures SessionResult(actions, ended, files.State()) == SessionTrace(room.value, old(files.State()), files.hash, lines)
    {
      actions := [];
      var i := 0;
      while i < |lines|
        invariant 0 <= i <= |lines|
        invariant Valid()
        invariant SessionTrace(room.value, old(files.State()), files.hash, lines) ==
                  Prepend(actions, SessionTrace(room.value, files.State(), files.hash, lines[i..]))
      {
        assert lines[i..][1..] == lines[i + 1..];
        var acts, leave := HandleLine(lines[i]);
        if leave {
          assert acts == [Stop];
          return actions + acts, Left;
        }
        ghost var rest := SessionTrace(room.value, files.State(), files.hash, lines[i + 1..]);
        assert actions + acts + rest.actions == actions + (acts + rest.actions);
        actions := actions + acts;
        i := i + 1;
      }
      ended := InputClosed;
    }

    /** One pass of the menu loop. */
    method MenuRound(ev: MenuEvent) returns (actions: seq<Action>, stop: bool)
      requires Valid()
      modifies this, files
      ensures Valid()
      ensures MenuResult(actions, State(), stop) == MenuStep(old(State()), files.hash, ev)
      ensures discovered == old(discovered)
    {
      match Dispatch(ev.choice)
      case ListRooms =>
        var listing := ListRooms();
        return [], false;
      case JoinRoom =>
        var name := TrimSpace(ev.roomName);
        if !ev.joinOk {
          room := None;
          return [], false;
        }
        room := Some(name);
        var acts, ended := Session(ev.session);
        SessionLeftIffExit(name, old(files.State()), files.hash, ev.session);
        return acts, ended == InputClosed;
      case Quit =>
        return [Stop], true;
      case Invalid =>
        return [], false;
    }

    /** The menu loop: passes run in order until one stops the node. */
    method MenuLoop(events: seq<MenuEvent>) returns (actions: seq<Action>, stop: bool)
      requires Valid()
      modifies this, files
      ensures Valid()
      ensures MenuResult(actions, State(), stop) == MenuTrace(old(State()), files.hash, events)
      ensures discovered == old(discovered)
    {
      actions := [];
      var i := 0;
      while i < |events|
        invariant 0 <= i <= |events|
        invariant Valid()
        invariant discovered == old(discovered)
        invariant MenuTrace(old(State()), files.hash, events) ==
                  PrependMenu(actions, MenuTrace(State(), files.hash, events[i..]))
      {
        ghost var before := State();
        var acts, halt := MenuRound(events[i]);
        assert events[i..][0] == events[i] && events[i..][1..] == events[i + 1..];
        if halt {
          return actions + acts, true;
        }
        MenuTraceStep(MenuTrace(old(State()), files.hash, events), files.hash, events[i..],
                      actions, before, MenuResult(acts, State(), halt));
        actions := actions + acts;
        i := i + 1;
      }
      stop := false;
    }
  }
}
