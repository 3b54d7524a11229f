/** The relay server's state and event handlers (server.js:68-216): the
    connections (`wss.clients`), the `clients` session map, the uid-to-name
    store, the binary broadcast queue with its single-flight flag, and every
    message the server hands to a socket, in order. */
module Relay {
  import opened Wrappers
  import opened Bytes
  import opened Chunker
  import opened Sessions
  import opened Heartbeat
  import opened Fragmentation
  import opened Scheduler

  /** A parsed text frame from a client; `Other` is any other `type`, or a
      frame `JSON.parse` rejected. Only the fields the server reads, or that
      the model follows through a relay, are kept: a `delete`'s `sender`, for
      one, is not. */
  datatype ClientMsg =
    | Identify(uid: string)
    | Chat(text: string)
    | Typing(isTyping: bool)
    | Rename(name: string)
    | Delete(messageId: string)
    | Reaction(messageId: string, reactor: string, symbol: string)
    | Other

  /** A JSON message the server sends. */
  datatype ServerMsg =
    | IdentityConfirmed(username: string)
    | System(text: string)
    | ChatOut(id: string, sender: string, text: string, timestamp: int)
    | TypingUpdate(users: seq<string>)
    | NameUpdated(name: string)
    | Relayed(msg: ClientMsg)

  /** One `send` or `ping` on one socket. */
  datatype Delivery =
    | Text(to: Conn, msg: ServerMsg)
    | Binary(to: Conn, frag: Fragment)
    | Ping(to: Conn)

  /** The broadcast `processBinaryQueue` has in flight: the targets chosen
      when it started and how many of them have had it. */
  datatype Job = Job(data: seq<byte>, targets: seq<Conn>, next: nat)

  /** The target list of `broadcast` (server.js:198) and of
      `processBinaryQueue` (server.js:102): the open connections, in the
      order the server holds them, without the excluded one. */
  function Targets(order: seq<Conn>, sockets: map<Conn, Socket>, exclude: Option<Conn>): (ts: seq<Conn>)
    ensures |ts| <= |order|
  {
    if order == [] then []
    else
      var c := order[|order| - 1];
      Targets(order[..|order| - 1], sockets, exclude) + if c in sockets && sockets[c].open && exclude != Some(c) then [c] else []
  }

  lemma {:induction false} TargetsMembers(order: seq<Conn>, sockets: map<Conn, Socket>, exclude: Option<Conn>)
    ensures var ts := Targets(order, sockets, exclude);
      forall c :: c in ts <==> c in order && c in sockets && sockets[c].open && exclude != Some(c)
  {
    if order != [] {
      var init := order[..|order| - 1];
      assert forall d :: d in order <==> d in init || d == order[|order| - 1];
      TargetsMembers(init, sockets, exclude);
    }
  }

  /** One copy of `m` for each target, in target order. */
  function Fanout(ts: seq<Conn>, m: ServerMsg): seq<Delivery>
  {
    if ts == [] then [] else Fanout(ts[..|ts| - 1], m) + [Text(ts[|ts| - 1], m)]
  }

  /** No connection is a target twice, so each gets one copy. */
  lemma {:induction false} TargetsDistinct(order: seq<Conn>, sockets: map<Conn, Socket>, exclude: Option<Conn>)
    requires Distinct(order)
    ensures Distinct(Targets(order, sockets, exclude))
  {
    if order != [] {
      var init := order[..|order| - 1];
      DistinctInit(order);
      TargetsDistinct(init, sockets, exclude);
      TargetsMembers(init, sockets, exclude);
    }
  }

  /** The `i`th delivery of a broadcast goes to its `i`th target. */
  lemma {:induction false} FanoutAt(ts: seq<Conn>, m: ServerMsg)
    ensures var ds := Fanout(ts, m);
      |ds| == |ts| && forall i :: 0 <= i < |ts| ==> ds[i] == Text(ts[i], m)
  {
    if ts != [] {
      FanoutAt(ts[..|ts| - 1], m);
    }
  }

  /** The fragments of one binary message, all to `t`, in order. */
  function FragsTo(t: Conn, frags: seq<Fragment>): (ds: seq<Delivery>)
    ensures |ds| == |frags|
    ensures forall i :: 0 <= i < |frags| ==> ds[i] == Binary(t, frags[i])
  {
    if frags == [] then [] else FragsTo(t, frags[..|frags| - 1]) + [Binary(t, frags[|frags| - 1])]
  }

  /** The pings one heartbeat tick sends: one to each connection whose
      `isAlive` flag was set, in order. */
  function Pings(order: seq<Conn>, sockets: map<Conn, Socket>): (ds: seq<Delivery>)
    ensures |ds| <= |order|
  {
    if order == [] then []
    else
      var c := order[|order| - 1];
      Pings(order[..|order| - 1], sockets) + if c in sockets && sockets[c].isAlive then [Ping(c)] else []
  }

  lemma PingsSnoc(order: seq<Conn>, i: nat, sockets: map<Conn, Socket>)
    requires i < |order|
    ensures Pings(order[..i + 1], sockets)
      == Pings(order[..i], sockets) + if order[i] in sockets && sockets[order[i]].isAlive then [Ping(order[i])] else []
  {
    assert order[..i + 1][..i] == order[..i];
  }

  /** The loop of the heartbeat tick after `i` connections: those have
      ticked, the rest are as they were, and their pings have gone out. */
  ghost predicate TickedUpTo(conns: seq<Conn>, before: map<Conn, Socket>, after: map<Conn, Socket>, pings: seq<Delivery>, i: nat) {
    && i <= |conns|
    && after.Keys == before.Keys
    && Distinct(conns)
    && (forall c :: c in before <==> c in conns)
    && (forall k :: 0 <= k < i ==> after[conns[k]] == AfterTick(before[conns[k]]).0)
    && (forall k :: i <= k < |conns| ==> after[conns[k]] == before[conns[k]])
    && pings == Pings(conns[..i], before)
  }

  lemma TickStep(conns: seq<Conn>, before: map<Conn, Socket>, after: map<Conn, Socket>, pings: seq<Delivery>, i: nat)
    requires TickedUpTo(conns, before, after, pings, i) && i < |conns|
    ensures var c := conns[i]; var r := AfterTick(after[c]);
      TickedUpTo(conns, before, after[c := r.0], pings + (if r.1 then [Ping(c)] else []), i + 1)
  {
    PingsSnoc(conns, i, before);
  }

  lemma TickDone(conns: seq<Conn>, before: map<Conn, Socket>, after: map<Conn, Socket>, pings: seq<Delivery>)
    requires TickedUpTo(conns, before, after, pings, |conns|)
    ensures after.Keys == before.Keys
    ensures forall c :: c in after ==> after[c] == AfterTick(before[c]).0
    ensures pings == Pings(conns, before)
  {
    assert conns[..|conns|] == conns;
    forall c | c in after ensures after[c] == AfterTick(before[c]).0 {
      var k :| 0 <= k < |conns| && conns[k] == c;
    }
  }

  /** A tick pings exactly the connections whose flag was set. */
  lemma {:induction false} PingsMembers(order: seq<Conn>, sockets: map<Conn, Socket>, c: Conn)
    ensures Ping(c) in Pings(order, sockets) <==> c in order && c in sockets && sockets[c].isAlive
  {
    if order != [] {
      var init := order[..|order| - 1];
      assert forall d :: d in order <==> d in init || d == order[|order| - 1];
      PingsMembers(init, sockets, c);
    }
  }

  /** Where `processBinaryQueue` leaves the queue when it starts from idle
      with pending jobs `q0` and open connections `ts`: the oldest job goes
      out to all of them, or, with nobody to send to, every pending job is
      taken off the queue and goes nowhere. */
  predicate Dispatched(q0: seq<seq<byte>>, ts: seq<Conn>, q: seq<seq<byte>>, busy: bool, job: Option<Job>) {
    if q0 != [] && ts != [] then busy && q == q0[1..] && job == Some(Job(q0[0], ts, 0))
    else !busy && q == [] && job == None
  }

  /** The connections and the sessions agree: `order` lists each open or
      closing socket once, and only those have sessions. */
  ghost predicate Consistent(sockets: map<Conn, Socket>, order: seq<Conn>, clients: Registry) {
    && (forall c :: c in sockets <==> c in order)
    && Distinct(order)
    && Wf(clients)
    && (forall c :: c in clients.sessions ==> c in sockets)
  }

  /** Registering (or re-registering) a session on a known socket. */
  lemma RegisterKeeps(sockets: map<Conn, Socket>, order: seq<Conn>, clients: Registry, c: Conn, s: Session)
    requires Consistent(sockets, order, clients) && c in sockets
    ensures Consistent(sockets, order, Put(clients, c, s))
  {
  }

  /** A socket leaving, with its session if it had one. */
  lemma CloseKeeps(sockets: map<Conn, Socket>, order: seq<Conn>, clients: Registry, c: Conn)
    requires Consistent(sockets, order, clients)
    ensures c in clients.sessions ==> Consistent(sockets - {c}, Remove(order, c), Drop(clients, c))
    ensures c !in clients.sessions ==> Consistent(sockets - {c}, Remove(order, c), clients)
  {
  }

  class Server {
    /** The connections of `wss.clients` with their heartbeat state. */
    var sockets: map<Conn, Socket>
    /** `wss.clients` in iteration order. */
    var order: seq<Conn>
    /** `clients` (server.js:68). */
    var clients: Registry
    /** The uid-to-name store read by `getUsers` and written by `saveUsers`. */
    var users: map<string, string>
    /** `binaryBroadcastQueue` (server.js:69). */
    var queue: seq<seq<byte>>
    /** `isProcessingBinary` (server.js:70). */
    var isProcessingBinary: bool
    /** The broadcast in flight while `isProcessingBinary` is set. */
    var job: Option<Job>
    /** Everything handed to a socket so far, oldest first. */
    var out: seq<Delivery>
    /** Every connection the server has been given, open or closed: each
        `ws` is a new object (server.js:119), so no id comes back. */
    ghost var used: set<Conn>

    /** The state every handler keeps, except that the queue may be
        non-empty while idle until `processBinaryQueue` has run. */
    ghost predicate Sound()
      reads this`sockets, this`order, this`clients, this`queue, this`isProcessingBinary, this`job, this`used
    {
      Consistent(sockets, order, clients) && QueueOk() && Issued()
    }

    /** The open connections and the targets of the job in flight are all
        connections the server has been given. */
    ghost predicate Issued()
      reads this`sockets, this`job, this`used
    {
      && (forall c :: c in sockets ==> c in used)
      && (job.Some? ==> forall t :: t in job.value.targets ==> t in used)
    }

    /** The queue stays within its bound and a job is in flight exactly
        while the flag is set. */
    ghost predicate QueueOk()
      reads this`queue, this`isProcessingBinary, this`job
    {
      && |queue| <= QUEUE_LIMIT
      && (isProcessingBinary <==> job.Some?)
      && (job.Some? ==> job.value.next < |job.value.targets|)
    }

    /** Between events no job waits while the server is idle. */
    ghost predicate Valid()
      reads this`sockets, this`order, this`clients, this`queue, this`isProcessingBinary, this`job, this`used
    {
      Sound() && (!isProcessingBinary ==> queue == [])
    }

    constructor (users0: map<string, string>)
      ensures Valid()
      ensures sockets == map[] && order == [] && clients == Empty && users == users0
      ensures queue == [] && !isProcessingBinary && job == None && out == []
    {
      sockets := map[];
      order := [];
      clients := Empty;
      users := users0;
      queue := [];
      isProcessingBinary := false;
      job := None;
      out := [];
      used := {};
    }

    /** A new connection (server.js:119-120): alive, and last in order. It
        is no target of the job in flight, which chose its targets before. */
    method Connect(c: Conn)
      requires Valid() && c !in used
      modifies this`sockets, this`order, this`used
      ensures Valid()
      ensures sockets == old(sockets)[c := Connected] && order == old(order) + [c]
      ensures used == old(used) + {c}
      ensures job.Some? ==> c !in job.value.targets
    {
      sockets := sockets[c := Connected];
      order := order + [c];
      used := used + {c};
    }

    /** The `pong` handler (server.js:121). */
    method OnPong(c: Conn)
      requires Valid()
      modifies this`sockets
      ensures Valid()
      ensures sockets == if c in old(sockets) && old(sockets)[c].open then old(sockets)[c := AfterPong(old(sockets)[c])] else old(sockets)
    {
      if c in sockets && sockets[c].open {
        sockets := sockets[c := AfterPong(sockets[c])];
      }
    }

    /** `wss.clients` and the heartbeat state agree. */
    ghost predicate Connections()
      reads this`sockets, this`order
    {
      (forall c :: c in sockets <==> c in order) && Distinct(order)
    }

    /** One heartbeat interval (server.js:210-216): every connection takes a
        tick, and the live ones are pinged, in order. */
    method Tick()
      requires Valid()
      modifies this`sockets, this`out
      ensures Valid()
      ensures sockets.Keys == old(sockets).Keys
      ensures forall c :: c in sockets ==> sockets[c] == AfterTick(old(sockets)[c]).0
      ensures out == old(out) + Pings(order, old(sockets))
    {
      TickAll();
    }

    method TickAll()
      requires Connections()
      modifies this`sockets, this`out
      ensures sockets.Keys == old(sockets).Keys
      ensures forall c :: c in sockets ==> sockets[c] == AfterTick(old(sockets)[c]).0
      ensures out == old(out) + Pings(order, old(sockets))
    {
      var conns := order;
      var before := sockets;
      var after := sockets;
      var pings := [];
      var i := 0;
      while i < |conns|
        invariant sockets == before && out == old(out)
        invariant TickedUpTo(conns, before, after, pings, i)
      {
        var c := conns[i];
        TickStep(conns, before, after, pings, i);
        var r := AfterTick(after[c]);
        after := after[c := r.0];
        if r.1 {
          pings := pings + [Ping(c)];
        }
        i := i + 1;
      }
      TickDone(conns, before, after, pings);
      sockets := after;
      out := out + pings;
    }

    /** `broadcast(data, exclude)` (server.js:196-208): one copy to every
        open connection but the excluded one, in order. */
    method Broadcast(m: ServerMsg, exclude: Option<Conn>)
      modifies this`out
      ensures old(Valid()) ==> Valid()
      ensures out == old(out) + Fanout(Targets(order, sockets, exclude), m)
    {
      var targets := Targets(order, sockets, exclude);
      var sent := [];
      var i := 0;
      while i < |targets|
        invariant 0 <= i <= |targets|
        invariant sent == Fanout(targets[..i], m)
      {
        assert targets[..i + 1][..i] == targets[..i];
        sent := sent + [Text(targets[i], m)];
        i := i + 1;
      }
      assert targets[..|targets|] == targets;
      out := out + sent;
    }

    /** `ws.send(data)` on one socket. */
    method Send(c: Conn, m: ServerMsg)
      modifies this`out
      ensures old(Valid()) ==> Valid()
      ensures out == old(out) + [Text(c, m)]
    {
      out := out + [Text(c, m)];
    }

    /** `broadcastTypingStatus` (server.js:188-191). */
    method BroadcastTypingStatus()
      requires Wf(clients)
      modifies this`out
      ensures old(Valid()) ==> Valid()
      ensures out == old(out) + Fanout(Targets(order, sockets, None), TypingUpdate(TypingUsers(clients)))
    {
      Broadcast(TypingUpdate(TypingUsers(clients)), None);
    }

    /** `processBinaryQueue` (server.js:97-111), with its tail call as a
        loop: nothing while a job is in flight; otherwise the oldest pending
        job is taken off the queue and addressed to every open connection,
        the sender included. */
    method ProcessBinaryQueue()
      requires Sound()
      modifies this`queue, this`isProcessingBinary, this`job
      ensures Valid()
      ensures old(isProcessingBinary) ==> queue == old(queue) && isProcessingBinary && job == old(job)
      ensures !old(isProcessingBinary) ==> Dispatched(old(queue), Targets(order, sockets, None), queue, isProcessingBinary, job)
    {
      ghost var ts := Targets(order, sockets, None);
      TargetsMembers(order, sockets, None);
      while !isProcessingBinary && queue != []
        invariant Sound()
        invariant old(isProcessingBinary) ==> queue == old(queue) && isProcessingBinary && job == old(job)
        invariant !old(isProcessingBinary) && isProcessingBinary ==> Dispatched(old(queue), ts, queue, true, job)
        invariant !old(isProcessingBinary) && !isProcessingBinary ==>
          job == None && (queue == old(queue) || (ts == [] && |queue| < |old(queue)|))
        decreases |queue|
      {
        var data := queue[0];
        queue := queue[1..];
        var targetClients := Targets(order, sockets, None);
        if targetClients != [] {
          isProcessingBinary := true;
          job := Some(Job(data, targetClients, 0));
        }
      }
    }

    /** A binary frame from any connection, registered or not
        (server.js:124-126), goes to `broadcastBinarySafely` (server.js:113-117). */
    method OnBinary(data: seq<byte>)
      requires Valid()
      modifies this`queue, this`isProcessingBinary, this`job
      ensures Valid()
      ensures old(isProcessingBinary) ==> queue == Enqueue(old(queue), data) && job == old(job)
      ensures !old(isProcessingBinary) ==> Dispatched([data], Targets(order, sockets, None), queue, isProcessingBinary, job)
    {
      queue := Enqueue(queue, data);
      ProcessBinaryQueue();
    }

    /** `sendInFragments(ws, buffer)` (server.js:76-95) on the socket `t`. */
    method SendInFragmentsTo(t: Conn, buffer: seq<byte>)
      modifies this`out
      ensures out == old(out) + FragsTo(t, Cut(buffer, TotalChunks(|buffer|, FRAGMENT_SIZE)))
    {
      var frags := SendInFragments(buffer);
      var i := 0;
      while i < |frags|
        invariant 0 <= i <= |frags|
        invariant out == old(out) + FragsTo(t, frags[..i])
      {
        assert frags[..i + 1][..i] == frags[..i];
        out := out + [Binary(t, frags[i])];
        i := i + 1;
      }
      assert frags[..|frags|] == frags;
    }

    /** One step of the job in flight: the next target gets every fragment
        of the message (nothing if it has closed since); after the last
        target the flag clears and the queue is served again. */
    method DrainStep()
      requires Valid() && job.Some?
      modifies this`out, this`queue, this`isProcessingBinary, this`job
      ensures Valid()
      ensures var j := old(job).value; var t := j.targets[j.next];
        out == old(out) + if t in sockets && sockets[t].open then FragsTo(t, Cut(j.data, TotalChunks(|j.data|, FRAGMENT_SIZE))) else []
      ensures var j := old(job).value;
        if j.next + 1 < |j.targets| then
          job == Some(j.(next := j.next + 1)) && queue == old(queue) && isProcessingBinary
        else
          Dispatched(old(queue), Targets(order, sockets, None), queue, isProcessingBinary, job)
    {
      var j := job.value;
      var t := j.targets[j.next];
      if t in sockets && sockets[t].open {
        SendInFragmentsTo(t, j.data);
      }
      Advance();
    }

    /** The end of one iteration of the loop over targets: move on to the
        next one, or, after the last, clear the flag and serve the queue
        again (server.js:104-110). */
    method Advance()
      requires Valid() && job.Some?
      modifies this`queue, this`isProcessingBinary, this`job
      ensures Valid()
      ensures var j := old(job).value;
        if j.next + 1 < |j.targets| then
          job == Some(j.(next := j.next + 1)) && queue == old(queue) && isProcessingBinary
        else
          Dispatched(old(queue), Targets(order, sockets, None), queue, isProcessingBinary, job)
    {
      var j := job.value;
      if j.next + 1 < |j.targets| {
        job := Some(j.(next := j.next + 1));
      } else {
        isProcessingBinary := false;
        job := None;
        ProcessBinaryQueue();
      }
    }

    /** `identify` (server.js:131-141): settle the name through the store,
        register (or re-register) the session with the typing flag clear,
        confirm the name to this connection and announce it to the others. */
    method OnIdentify(c: Conn, uid: string, generated: string)
      requires Valid() && c in sockets
      modifies this`users, this`clients, this`out
      ensures Valid()
      ensures var r := IdentifyName(old(users), uid, generated);
        && users == r.1
        && clients == Put(old(clients), c, Session(uid, r.0, false))
        && out == old(out) + [Text(c, IdentityConfirmed(r.0))] + Fanout(Targets(order, sockets, Some(c)), System(r.0 + " joined"))
    {
      if !(uid in users && users[uid] != "") {
        users := users[uid := generated];
      }
      var username := users[uid];
      RegisterKeeps(sockets, order, clients, c, Session(uid, username, false));
      clients := Put(clients, c, Session(uid, username, false));
      assert Valid();
      Send(c, IdentityConfirmed(username));
      Broadcast(System(username + " joined"), Some(c));
    }

    /** `chat` (server.js:147-156): the sender's typing flag is cleared and
        the new aggregate broadcast, then the message goes to every open
        connection, the sender included, under the sender's current name. */
    method OnChat(c: Conn, text: string, msgId: string, now: int)
      requires Valid() && c in clients.sessions
      modifies this`clients, this`out
      ensures Valid()
      ensures var info := old(clients).sessions[c];
        var ts := Targets(order, sockets, None);
        && clients == Put(old(clients), c, info.(isTyping := false))
        && out == old(out) + Fanout(ts, TypingUpdate(TypingUsers(clients))) + Fanout(ts, ChatOut(msgId, info.username, text, now))
    {
      var info := clients.sessions[c];
      RegisterKeeps(sockets, order, clients, c, info.(isTyping := false));
      clients := Put(clients, c, info.(isTyping := false));
      assert Valid();
      BroadcastTypingStatus();
      Broadcast(ChatOut(msgId, info.username, text, now), None);
    }

    /** `typing` (server.js:157-159). */
    method OnTyping(c: Conn, isTyping: bool)
      requires Valid() && c in clients.sessions
      modifies this`clients, this`out
      ensures Valid()
      ensures clients == Put(old(clients), c, old(clients).sessions[c].(isTyping := isTyping))
      ensures out == old(out) + Fanout(Targets(order, sockets, None), TypingUpdate(TypingUsers(clients)))
    {
      var info := clients.sessions[c];
      RegisterKeeps(sockets, order, clients, c, info.(isTyping := isTyping));
      clients := Put(clients, c, info.(isTyping := isTyping));
      assert Valid();
      BroadcastTypingStatus();
    }

    /** `rename` (server.js:160-171): nothing when the trimmed, capped name
        is empty or the current one; otherwise this session's name and the
        stored name for its uid change, everyone is told, the sender is
        confirmed, and the typing aggregate is sent again. */
    method OnRename(c: Conn, name: string)
      requires Valid() && c in clients.sessions
      modifies this`users, this`clients, this`out
      ensures Valid()
      ensures RenameApplied(c, name)
      ensures var info := old(clients).sessions[c];
        var newName := RenameTarget(name);
        var ts := Targets(order, sockets, None);
        newName != "" && newName != info.username ==>
          out == old(out) + Fanout(ts, System(info.username + " is now " + newName))
                 + [Text(c, NameUpdated(newName))] + Fanout(ts, TypingUpdate(TypingUsers(clients)))
    {
      var info := clients.sessions[c];
      var newName := RenameTarget(name);
      if newName != "" && newName != info.username {
        ApplyRename(c, newName);
      }
    }

    /** The changes `rename` makes once the new name is settled
        (server.js:163-169). */
    method ApplyRename(c: Conn, newName: string)
      requires Valid() && c in clients.sessions
      modifies this`users, this`clients, this`out
      ensures Valid()
      ensures var info := old(clients).sessions[c];
        var ts := Targets(order, sockets, None);
        && users == old(users)[info.uid := newName]
        && clients == Put(old(clients), c, info.(username := newName))
        && out == old(out) + Fanout(ts, System(info.username + " is now " + newName))
               + [Text(c, NameUpdated(newName))] + Fanout(ts, TypingUpdate(TypingUsers(clients)))
    {
      var info := clients.sessions[c];
      users := users[info.uid := newName];
      RegisterKeeps(sockets, order, clients, c, info.(username := newName));
      clients := Put(clients, c, info.(username := newName));
      AnnounceRename(c, info.username, newName);
    }

    /** What a rename sends (server.js:167-169): the announcement to every
        open connection, the confirmation to the renamed one, and the typing
        aggregate again. */
    method AnnounceRename(c: Conn, oldName: string, newName: string)
      requires Valid()
      modifies this`out
      ensures Valid()
      ensures var ts := Targets(order, sockets, None);
        out == old(out) + Fanout(ts, System(oldName + " is now " + newName))
               + [Text(c, NameUpdated(newName))] + Fanout(ts, TypingUpdate(TypingUsers(clients)))
    {
      Broadcast(System(oldName + " is now " + newName), None);
      Send(c, NameUpdated(newName));
      BroadcastTypingStatus();
    }

    /** The `message` handler for text frames (server.js:129-175): `identify`
        from anyone; every other type only from a registered connection,
        and ignored otherwise. */
    method OnText(c: Conn, msg: ClientMsg, generated: string, msgId: string, now: int)
      requires Valid() && c in sockets
      modifies this`users, this`clients, this`out
      ensures Valid()
      ensures msg.Identify? ==> var r := IdentifyName(old(users), msg.uid, generated);
        users == r.1 && clients == Put(old(clients), c, Session(msg.uid, r.0, false))
      ensures !msg.Identify? && c !in old(clients).sessions ==>
        users == old(users) && clients == old(clients) && out == old(out)
      ensures msg.Other? ==> users == old(users) && clients == old(clients) && out == old(out)
      ensures (msg.Delete? || msg.Reaction?) && c in old(clients).sessions ==>
        && users == old(users) && clients == old(clients)
        && out == old(out) + Fanout(Targets(order, sockets, None), Relayed(msg))
      ensures (msg.Chat? || msg.Typing?) && c in old(clients).sessions ==>
        var info := old(clients).sessions[c];
        users == old(users) && clients == Put(old(clients), c, info.(isTyping := msg.Typing? && msg.isTyping))
      ensures msg.Rename? && c in old(clients).sessions ==> RenameApplied(c, msg.name)
    {
      if msg.Identify? {
        OnIdentify(c, msg.uid, generated);
      } else if c in clients.sessions {
        OnSessionMessage(c, msg, msgId, now);
      }
    }

    /** The state change a `rename` makes (server.js:161-167). */
    twostate predicate RenameApplied(c: Conn, name: string)
      reads this
    {
      Wf(old(clients)) && c in old(clients).sessions &&
      var info := old(clients).sessions[c];
      var newName := RenameTarget(name);
      if newName != "" && newName != info.username then
        users == old(users)[info.uid := newName] && clients == Put(old(clients), c, info.(username := newName))
      else
        users == old(users) && clients == old(clients) && out == old(out)
    }

    /** A message other than `identify` from a registered connection
        (server.js:147-174): `delete` and `reaction` are sent on to every
        open connection with their message id, reactor and symbol; an
        unknown type or a frame that does not parse changes nothing. */
    method OnSessionMessage(c: Conn, msg: ClientMsg, msgId: string, now: int)
      requires Valid() && c in clients.sessions && !msg.Identify?
      modifies this`users, this`clients, this`out
      ensures Valid()
      ensures msg.Other? ==> users == old(users) && clients == old(clients) && out == old(out)
      ensures msg.Delete? || msg.Reaction? ==>
        && users == old(users) && clients == old(clients)
        && out == old(out) + Fanout(Targets(order, sockets, None), Relayed(msg))
      ensures msg.Chat? || msg.Typing? ==>
        var info := old(clients).sessions[c];
        users == old(users) && clients == Put(old(clients), c, info.(isTyping := msg.Typing? && msg.isTyping))
      ensures msg.Rename? ==> RenameApplied(c, msg.name)
    {
      match msg {
        case Chat(text) => OnChat(c, text, msgId, now);
        case Typing(t) => OnTyping(c, t);
        case Rename(name) => OnRename(c, name);
        case Delete(_) => Broadcast(Relayed(msg), None);
        case Reaction(_, _, _) => Broadcast(Relayed(msg), None);
        case Other =>
      }
    }

    /** `close` (server.js:178-185). The connection leaves `wss.clients`
        first; then, if it had a session, the others are told, the session
        is deleted and the typing aggregate is sent again. */
    method OnClose(c: Conn)
      requires Valid() && c in sockets
      modifies this`sockets, this`order, this`clients, this`out
      ensures Valid()
      ensures sockets == old(sockets) - {c} && order == Remove(old(order), c)
      ensures c in old(clients).sessions ==>
        var ts := Targets(order, sockets, None);
        && clients == Drop(old(clients), c)
        && out == old(out) + Fanout(ts, System(old(clients).sessions[c].username + " left"))
               + Fanout(ts, TypingUpdate(TypingUsers(clients)))
      ensures c !in old(clients).sessions ==> clients == old(clients) && out == old(out)
    {
      CloseKeeps(sockets, order, clients, c);
      sockets := sockets - {c};
      order := Remove(order, c);
      if c in clients.sessions {
        Leave(c);
      }
    }

    /** The part of `close` for a connection with a session
        (server.js:180-183), once it has left `wss.clients`. */
    method Leave(c: Conn)
      requires Wf(clients) && c in clients.sessions && Consistent(sockets, order, Drop(clients, c))
      requires QueueOk() && Issued() && (!isProcessingBinary ==> queue == [])
      modifies this`clients, this`out
      ensures Valid()
      ensures var ts := Targets(order, sockets, None);
        && clients == Drop(old(clients), c)
        && out == old(out) + Fanout(ts, System(old(clients).sessions[c].username + " left"))
               + Fanout(ts, TypingUpdate(TypingUsers(clients)))
    {
      var info := clients.sessions[c];
      Broadcast(System(info.username + " left"), None);
      clients := Drop(clients, c);
      assert Valid();
      BroadcastTypingStatus();
    }
  }
}
