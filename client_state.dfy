/** The browser client's in-place state (public/client.js): the `msgData`
    map of per-message entries, the list of rendered messages that
    `pruneMessages` trims, and the `isTyping` flag of `handleTyping`. */
module ClientState {
  import opened Wrappers
  import opened Bytes
  import opened Frame
  import opened Chunker
  import opened Reassembly

  /** `MAX_DOM_MESSAGES` (public/client.js:15). */
  function MaxDomMessages(isMobile: bool): nat {
    if isMobile then 40 else 300
  }

  /** `list.filter(u => u !== x)`. */
  function Without(l: seq<string>, x: string): (r: seq<string>)
    ensures x !in r
    ensures |r| <= |l|
  {
    if l == [] then []
    else (if l[0] == x then [] else [l[0]]) + Without(l[1..], x)
  }

  /** Filtering keeps every other element as often as it occurred. */
  lemma {:induction false} WithoutCounts(l: seq<string>, x: string)
    ensures forall u :: u != x ==> multiset(Without(l, x))[u] == multiset(l)[u]
  {
    if l != [] {
      assert l == [l[0]] + l[1..];
      WithoutCounts(l[1..], x);
    }
  }

  lemma {:induction false} WithoutAppend(a: seq<string>, b: seq<string>, x: string)
    ensures Without(a + b, x) == Without(a, x) + Without(b, x)
  {
    if a == [] {
      assert a + b == b;
    } else {
      assert (a + b)[1..] == a[1..] + b;
      WithoutAppend(a[1..], b, x);
    }
  }

  lemma {:induction false} WithoutIdempotent(l: seq<string>, x: string)
    ensures Without(Without(l, x), x) == Without(l, x)
  {
    if l != [] {
      WithoutIdempotent(l[1..], x);
      WithoutAppend(if l[0] == x then [] else [l[0]], Without(l[1..], x), x);
      if l[0] != x {
        assert Without([l[0]], x) == [l[0]] + Without([], x);
      }
    }
  }

  lemma WithoutAppendSelf(l: seq<string>, x: string)
    ensures Without(l + [x], x) == Without(l, x)
  {
    WithoutAppend(l, [x], x);
    assert Without([x], x) == [] + Without([], x);
  }

  /** Every symbol's list with the reactor filtered out. */
  function Cleared(r: map<string, seq<string>>, reactor: string): (r': map<string, seq<string>>)
    ensures r'.Keys == r.Keys
    ensures forall s :: s in r' ==> reactor !in r'[s] && |r'[s]| <= |r[s]|
  {
    map s | s in r :: Without(r[s], reactor)
  }

  /** The reaction map after `updateReaction` (public/client.js:379) for a
      known message: the reactor is taken out of every symbol's list, then,
      when a symbol is given (the empty string stands for a missing one),
      appended once to that symbol's list, which is created if absent. */
  function React(r: map<string, seq<string>>, reactor: string, symbol: string): (r': map<string, seq<string>>)
    ensures r'.Keys == if symbol == "" then r.Keys else r.Keys + {symbol}
    ensures forall s :: s in r' ==> multiset(r'[s])[reactor] == if s == symbol && symbol != "" then 1 else 0
  {
    var c := Cleared(r, reactor);
    if symbol == "" then c
    else c[symbol := (if symbol in c then c[symbol] else []) + [reactor]]
  }

  /** Reacting leaves every other reactor's place in every list as it was. */
  lemma ReactKeepsOthers(r: map<string, seq<string>>, reactor: string, symbol: string, s: string)
    requires s in React(r, reactor, symbol)
    ensures Without(React(r, reactor, symbol)[s], reactor) == if s in r then Without(r[s], reactor) else []
  {
    if s in r {
      WithoutIdempotent(r[s], reactor);
    }
    if s == symbol && symbol != "" {
      WithoutAppendSelf(if s in r then Without(r[s], reactor) else [], reactor);
    }
  }

  /** Reacting twice with the same symbol is the same as reacting once. */
  lemma ReactIdempotent(r: map<string, seq<string>>, reactor: string, symbol: string)
    ensures React(React(r, reactor, symbol), reactor, symbol) == React(r, reactor, symbol)
  {
    var once := React(r, reactor, symbol);
    var twice := React(once, reactor, symbol);
    forall s | s in twice ensures twice[s] == once[s] {
      if s in r {
        WithoutIdempotent(r[s], reactor);
      }
      if s == symbol {
        WithoutAppendSelf(if s in r then Without(r[s], reactor) else [], reactor);
      }
    }
    assert twice.Keys == once.Keys;
  }

  /** The typing banner of the `typing_update` case (public/client.js:118-122):
      the names other than one's own, in order. The banner is hidden exactly
      when this is empty. */
  function OthersTyping(users: seq<string>, me: string): (others: seq<string>)
    ensures me !in others
    ensures forall u :: u != me ==> multiset(others)[u] == multiset(users)[u]
  {
    WithoutCounts(users, me);
    Without(users, me)
  }

  /** What `handleTyping(t)` sends (public/client.js:383): a `typing` message
      only when the flag changes and the socket is open. */
  function TypingSignal(wasTyping: bool, t: bool, open: bool): (sig: Option<bool>)
    ensures sig != Some(wasTyping)
    ensures sig.Some? ==> sig.value == t
    ensures !open ==> sig == None
  {
    if t != wasTyping && open then Some(t) else None
  }

  function Last(start: bool, states: seq<bool>): bool {
    if states == [] then start else states[|states| - 1]
  }

  /** The `typing` messages a run of `handleTyping` calls sends while the
      socket stays open, starting from the flag `start`. */
  function Signals(start: bool, states: seq<bool>): (sig: seq<bool>)
    ensures |sig| <= |states|
  {
    if states == [] then []
    else
      var prev := states[..|states| - 1];
      Signals(start, prev)
        + match TypingSignal(Last(start, prev), states[|states| - 1], true)
          case Some(t) => [t]
          case None => []
  }

  /** While the socket is open the messages sent alternate, the first one
      differs from the starting flag, and the last one sent is the current
      state: the server never hears the same state twice in a row. */
  lemma {:induction false} SignalsAlternate(start: bool, states: seq<bool>)
    ensures Last(start, Signals(start, states)) == Last(start, states)
    ensures |Signals(start, states)| > 0 ==> Signals(start, states)[0] != start
    ensures forall i :: 0 < i < |Signals(start, states)| ==> Signals(start, states)[i] != Signals(start, states)[i - 1]
  {
    if states != [] {
      var prev := states[..|states| - 1];
      SignalsAlternate(start, prev);
    }
  }

  /** The rendered messages kept by `pruneMessages` (public/client.js:254-265):
      the newest `max` of them, in order. */
  function Prune(shown: seq<string>, max: nat): (kept: seq<string>)
    ensures |kept| == if |shown| <= max then |shown| else max
    ensures kept == shown[|shown| - |kept|..]
  {
    if |shown| <= max then shown else shown[|shown| - max..]
  }

  /** The ids whose `msgData` entries `pruneMessages` deletes. */
  function PrunedIds(shown: seq<string>, max: nat): (gone: set<string>)
    ensures forall id :: id in gone ==> id in shown
    ensures |shown| <= max ==> gone == {}
  {
    set k | 0 <= k < |shown| - |Prune(shown, max)| :: shown[k]
  }

  class Client {
    /** `msgData` (public/client.js:19). */
    var msgData: map<string, Entry>
    /** The ids of the `.message` elements of the chat area, oldest first. */
    var shown: seq<string>
    /** `isTyping` (public/client.js:6). */
    var isTyping: bool
    /** `MAX_DOM_MESSAGES`. */
    const maxDom: nat

    constructor (isMobile: bool)
      ensures msgData == map[] && shown == [] && !isTyping
      ensures maxDom == MaxDomMessages(isMobile)
    {
      msgData := map[];
      shown := [];
      isTyping := false;
      maxDom := MaxDomMessages(isMobile);
    }

    /** `handleBinary(buf)`: decode, file the chunk, report progress, and on
        completion keep the blob, empty the slots, render the message if it
        is not on the page yet, and prune. */
    method HandleBinary(buf: seq<byte>, parse: seq<byte> -> Option<ChunkMeta>, now: int) returns (outcome: Outcome)
      modifies this`msgData, this`shown
      ensures var res := ReceiveFrame(old(msgData), buf, parse, now);
        && outcome == res.1
        && (if outcome.Completed? then
              var id := parse(DecodeFrame(buf).value.meta).value.base.id;
              var rendered := if id in old(shown) then old(shown) else old(shown) + [id];
              shown == Prune(rendered, maxDom) && msgData == res.0 - PrunedIds(rendered, maxDom)
            else
              shown == old(shown) && msgData == res.0)
    {
      var decoded := DecodeFrame(buf);
      if decoded.Failure? {
        return Dropped;
      }
      var parsed := parse(decoded.value.meta);
      if parsed.None? {
        return Dropped;
      }
      var chunkMeta := parsed.value;
      var mid := chunkMeta.base.id;
      outcome := Accept(chunkMeta, decoded.value.payload, now);
      if outcome.Completed? {
        if mid !in shown {
          shown := shown + [mid];
        }
        PruneMessages();
      }
    }

    /** The part of `handleBinary` that updates `msgData` for a parsed chunk:
        create the entry if absent, store the slice, count, throttle the
        progress report, and assemble once every chunk is in. */
    method Accept(chunkMeta: ChunkMeta, slice: seq<byte>, now: int) returns (outcome: Outcome)
      modifies this`msgData
      ensures (msgData, outcome) == Receive(old(msgData), chunkMeta, slice, now)
    {
      var mid := chunkMeta.base.id;
      if mid !in msgData {
        msgData := msgData[mid := Entry(map[], [], Some(chunkMeta), 0, None)];
      }
      var entry := msgData[mid];
      entry := entry.(chunks := Store(entry.chunks, chunkMeta.chunkIndex, slice));
      var receivedChunks := Filled(entry.chunks);
      var report: Option<Report> := None;
      if now - entry.lastUpdate > 150 || receivedChunks == chunkMeta.totalChunks {
        report := Some(Report(receivedChunks, chunkMeta.totalChunks));
        entry := entry.(lastUpdate := now);
      }
      if receivedChunks == chunkMeta.totalChunks {
        var finalBlob := Assemble(entry.chunks);
        entry := entry.(blob := Some(finalBlob), chunks := []);
        msgData := msgData[mid := entry];
        outcome := Completed(finalBlob, report.value);
        assert msgData == Receive(old(msgData), chunkMeta, slice, now).0;
        assert outcome == Receive(old(msgData), chunkMeta, slice, now).1;
      } else {
        msgData := msgData[mid := entry];
        outcome := Stored(report);
        assert msgData == Receive(old(msgData), chunkMeta, slice, now).0;
        assert outcome == Receive(old(msgData), chunkMeta, slice, now).1;
      }
    }

    /** `pruneMessages()`: while more than `maxDom` messages are on the page,
        the oldest are removed together with their `msgData` entries. */
    method PruneMessages()
      modifies this`msgData, this`shown
      ensures shown == Prune(old(shown), maxDom)
      ensures msgData == old(msgData) - PrunedIds(old(shown), maxDom)
    {
      if |shown| <= maxDom {
        return;
      }
      var toRemove := shown[..|shown| - maxDom];
      var i := 0;
      while i < |toRemove|
        invariant 0 <= i <= |toRemove|
        invariant shown == old(shown)[i..]
        invariant msgData == old(msgData) - (set k | 0 <= k < i :: toRemove[k])
      {
        msgData := msgData - {toRemove[i]};
        shown := shown[1..];
        i := i + 1;
      }
    }

    /** `updateReaction(m)`: nothing for a message without an entry; otherwise
        the entry's reactions become `React(...)`. */
    method UpdateReaction(messageId: string, reactor: string, symbol: string)
      modifies this`msgData
      ensures messageId !in old(msgData) ==> msgData == old(msgData)
      ensures messageId in old(msgData) ==>
        msgData == old(msgData)[messageId := old(msgData)[messageId].(reactions := React(old(msgData)[messageId].reactions, reactor, symbol))]
    {
      if messageId !in msgData {
        return;
      }
      var d := msgData[messageId];
      var r := ClearReactor(d.reactions, reactor);
      ghost var c := Cleared(d.reactions, reactor);
      if symbol != "" {
        if symbol !in r {
          r := r[symbol := []];
        }
        assert r[symbol] == if symbol in c then c[symbol] else [];
        r := r[symbol := r[symbol] + [reactor]];
        assert r == c[symbol := (if symbol in c then c[symbol] else []) + [reactor]];
      }
      msgData := msgData[messageId := d.(reactions := r)];
    }

    /** The loop `for (const s in r) r[s] = r[s].filter(u => u !== reactor)`. */
    method ClearReactor(r0: map<string, seq<string>>, reactor: string) returns (r: map<string, seq<string>>)
      ensures r == Cleared(r0, reactor)
    {
      r := r0;
      var pending := r.Keys;
      while pending != {}
        invariant pending <= r.Keys == r0.Keys
        invariant forall s :: s in r ==> r[s] == if s in pending then r0[s] else Without(r0[s], reactor)
        decreases pending
      {
        var s :| s in pending;
        r := r[s := Without(r[s], reactor)];
        pending := pending - {s};
      }
      assert r.Keys == Cleared(r0, reactor).Keys;
    }

    /** `handleTyping(t)`: records the new state and returns the `typing`
        message sent, if any; `open` is the socket's state. The three-second
        timer that later calls `handleTyping(false)` is the caller's. */
    method HandleTyping(t: bool, open: bool) returns (sent: Option<bool>)
      modifies this`isTyping
      ensures isTyping == t
      ensures sent == TypingSignal(old(isTyping), t, open)
    {
      sent := None;
      if t != isTyping {
        isTyping := t;
        if open {
          sent := Some(t);
        }
      }
    }
  }
}
