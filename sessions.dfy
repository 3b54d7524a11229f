/** The server's session bookkeeping (server.js:131-189): the `clients` map
    from connection to `{uid, username, isTyping}`, kept in insertion order
    as a JavaScript `Map` is, the uid-to-name store behind `getUsers` and
    `saveUsers`, the name a rename asks for, and the typing aggregate. */
module Sessions {
  /** A connection (one `ws` object), by identity. */
  type Conn = nat

  /** The value `clients` holds for a connection. */
  datatype Session = Session(uid: string, username: string, isTyping: bool)

  predicate Distinct(cs: seq<Conn>) {
    forall i, j :: 0 <= i < j < |cs| ==> cs[i] != cs[j]
  }

  /** The `clients` Map: its sessions, and its keys in insertion order,
      which is the order `clients.values()` yields them in. */
  datatype Registry = Registry(order: seq<Conn>, sessions: map<Conn, Session>)

  ghost predicate Wf(r: Registry) {
    Distinct(r.order) && forall c :: c in r.sessions <==> c in r.order
  }

  const Empty: Registry := Registry([], map[])

  /** `clients.set(ws, s)`: a key already present keeps its place and gets
      the new value; a new key goes last. */
  function Put(r: Registry, c: Conn, s: Session): (r': Registry)
    requires Wf(r)
    ensures Wf(r')
    ensures r'.sessions == r.sessions[c := s]
    ensures c in r.sessions ==> r'.order == r.order
    ensures c !in r.sessions ==> r'.order == r.order + [c]
  {
    if c in r.sessions then Registry(r.order, r.sessions[c := s])
    else Registry(r.order + [c], r.sessions[c := s])
  }

  /** `order` without `c`, the rest in the same order. */
  function Remove(order: seq<Conn>, c: Conn): (rest: seq<Conn>)
    ensures forall d :: d in rest <==> d in order && d != c
    ensures Distinct(order) ==> Distinct(rest)
  {
    if order == [] then []
    else
      var init := order[..|order| - 1];
      var last := order[|order| - 1];
      assert forall d :: d in order <==> d in init || d == last;
      var rest := Remove(init, c);
      assert Distinct(order) ==> Distinct(rest + if last == c then [] else [last]) by {
        if Distinct(order) {
          DistinctInit(order);
          assert last !in init;
          assert last !in rest;
        }
      }
      rest + if last == c then [] else [last]
  }

  /** `Remove` takes a list apart from its last element. */
  lemma RemoveSnoc(init: seq<Conn>, last: Conn, c: Conn)
    ensures Remove(init + [last], c) == Remove(init, c) + if last == c then [] else [last]
  {
    assert (init + [last])[..|init|] == init;
  }

  /** Removing a connection that is not there changes nothing. */
  lemma {:induction false} RemoveAbsent(order: seq<Conn>, c: Conn)
    requires c !in order
    ensures Remove(order, c) == order
  {
    if order != [] {
      var init, last := order[..|order| - 1], order[|order| - 1];
      assert order == init + [last];
      RemoveAbsent(init, c);
      RemoveSnoc(init, last, c);
    }
  }

  /** Removing the connection at position `k` of a list without repeats
      closes the gap and keeps everything else in order. */
  lemma {:induction false} RemoveAt(order: seq<Conn>, k: nat)
    requires Distinct(order) && k < |order|
    ensures Remove(order, order[k]) == order[..k] + order[k + 1..]
  {
    var init, last := order[..|order| - 1], order[|order| - 1];
    assert order == init + [last];
    DistinctInit(order);
    if k == |order| - 1 {
      RemoveAbsent(init, last);
      RemoveSnoc(init, last, last);
      assert order[..k] == init && order[k + 1..] == [];
    } else {
      assert init[k] == order[k] && order[k] != last;
      RemoveAt(init, k);
      RemoveStep(init, last, k);
    }
  }

  /** Closing the gap at `k` survives appending an element other than the
      removed one. */
  lemma RemoveStep(init: seq<Conn>, last: Conn, k: nat)
    requires k < |init| && init[k] != last
    requires Remove(init, init[k]) == init[..k] + init[k + 1..]
    ensures Remove(init + [last], init[k]) == (init + [last])[..k] + (init + [last])[k + 1..]
  {
    RemoveSnoc(init, last, init[k]);
    assert init[..k] == (init + [last])[..k];
    assert init[k + 1..] + [last] == (init + [last])[k + 1..];
  }

  lemma DistinctInit(order: seq<Conn>)
    requires order != [] && Distinct(order)
    ensures Distinct(order[..|order| - 1])
    ensures order[|order| - 1] !in order[..|order| - 1]
  {
  }

  /** `clients.delete(ws)`. */
  function Drop(r: Registry, c: Conn): (r': Registry)
    requires Wf(r)
    ensures Wf(r')
    ensures r'.sessions == r.sessions - {c}
  {
    Registry(Remove(r.order, c), r.sessions - {c})
  }

  /** The usernames of the sessions with the typing flag set, in key order. */
  function TypingNames(order: seq<Conn>, sessions: map<Conn, Session>): (names: seq<string>)
    ensures |names| <= |order|
  {
    if order == [] then []
    else
      var last := order[|order| - 1];
      TypingNames(order[..|order| - 1], sessions)
        + if last in sessions && sessions[last].isTyping then [sessions[last].username] else []
  }

  /** A name is in the typing aggregate exactly when some registered
      session with that name has its flag set. */
  lemma {:induction false} TypingNamesMembers(order: seq<Conn>, sessions: map<Conn, Session>, n: string)
    ensures n in TypingNames(order, sessions) <==>
      exists c :: c in order && c in sessions && sessions[c].isTyping && sessions[c].username == n
  {
    if order != [] {
      var init := order[..|order| - 1];
      var last := order[|order| - 1];
      assert forall d :: d in order <==> d in init || d == last;
      TypingNamesMembers(init, sessions, n);
    }
  }

  /** `broadcastTypingStatus` (server.js:188-189): the usernames of the
      registered sessions whose flag is set, in map order. */
  function TypingUsers(r: Registry): (names: seq<string>)
    ensures |names| <= |r.order|
  {
    TypingNames(r.order, r.sessions)
  }

  /** A chat message clears the sender's flag (server.js:147-148) and a
      close deletes the session (server.js:178-183): either way the sender
      is out of the aggregate, and the aggregate is the same in both cases. */
  lemma ClearingTypingIsLeaving(r: Registry, c: Conn, s: Session)
    requires Wf(r) && c in r.sessions
    requires !s.isTyping
    ensures TypingUsers(Put(r, c, s)) == TypingUsers(Drop(r, c))
  {
    ClearedNames(r.order, r.sessions, c, s);
    AbsentNames(r.order, r.sessions - {c}, c);
  }

  lemma {:induction false} ClearedNames(order: seq<Conn>, sessions: map<Conn, Session>, c: Conn, s: Session)
    requires !s.isTyping
    ensures TypingNames(order, sessions[c := s]) == TypingNames(order, sessions - {c})
  {
    if order != [] {
      ClearedNames(order[..|order| - 1], sessions, c, s);
    }
  }

  lemma {:induction false} AbsentNames(order: seq<Conn>, sessions: map<Conn, Session>, c: Conn)
    requires c !in sessions
    ensures TypingNames(Remove(order, c), sessions) == TypingNames(order, sessions)
  {
    if order != [] {
      var init := order[..|order| - 1];
      var last := order[|order| - 1];
      AbsentNames(init, sessions, c);
      var rest := Remove(init, c);
      if last != c {
        assert Remove(order, c) == rest + [last];
        assert (rest + [last])[..|rest|] == rest;
      } else {
        assert TypingNames(order, sessions) == TypingNames(init, sessions) + [];
        assert Remove(order, c) == rest + [];
        assert rest + [] == rest;
      }
    }
  }

  /** The characters `String.prototype.trim` removes: ECMAScript WhiteSpace
      and LineTerminator code points. */
  predicate IsJsWhitespace(ch: char) {
    var c := ch as int;
    (0x09 <= c <= 0x0D) || c == 0x20 || c == 0xA0 || c == 0x1680
    || (0x2000 <= c <= 0x200A) || c == 0x2028 || c == 0x2029
    || c == 0x202F || c == 0x205F || c == 0x3000 || c == 0xFEFF
  }

  /** Among ASCII characters, `trim` drops exactly space, tab, line feed,
      carriage return, vertical tab and form feed. */
  lemma AsciiWhitespace(ch: char)
    requires ch as int < 0x80
    ensures IsJsWhitespace(ch) <==> ch in {' ', '\t', '\n', '\r', '\U{000B}', '\U{000C}'}
  {
  }

  /** `trimStart`: leading white space dropped. */
  function TrimStart(s: string): (t: string)
    ensures |t| <= |s| && t == s[|s| - |t|..]
    ensures t == [] || !IsJsWhitespace(t[0])
    ensures forall j :: 0 <= j < |s| - |t| ==> IsJsWhitespace(s[j])
  {
    if s == [] || !IsJsWhitespace(s[0]) then s else TrimStart(s[1..])
  }

  /** `trimEnd`: trailing white space dropped. */
  function TrimEnd(s: string): (t: string)
    ensures |t| <= |s| && t == s[..|t|]
    ensures t == [] || !IsJsWhitespace(t[|t| - 1])
    ensures forall j :: |t| <= j < |s| ==> IsJsWhitespace(s[j])
  {
    if s == [] || !IsJsWhitespace(s[|s| - 1]) then s else TrimEnd(s[..|s| - 1])
  }

  /** `s.trim()`: white space dropped at both ends. */
  function Trim(s: string): (t: string)
    ensures t == [] || (!IsJsWhitespace(t[0]) && !IsJsWhitespace(t[|t| - 1]))
  {
    var u := TrimStart(s);
    var t := TrimEnd(u);
    assert t != [] ==> t[0] == u[0];
    t
  }

  /** What `trim` keeps is one contiguous run of the string, and everything
      around it is white space. */
  lemma TrimKeepsRun(s: string)
    ensures var lead := |s| - |TrimStart(s)|;
      && lead + |Trim(s)| <= |s|
      && Trim(s) == s[lead..lead + |Trim(s)|]
      && (forall j :: 0 <= j < lead ==> IsJsWhitespace(s[j]))
      && (forall j :: lead + |Trim(s)| <= j < |s| ==> IsJsWhitespace(s[j]))
  {
    var u := TrimStart(s);
    var t := TrimEnd(u);
    var lead := |s| - |u|;
    TrimParts(s, u, t, lead);
  }

  lemma TrimParts(s: string, u: string, t: string, lead: nat)
    requires lead <= |s| && u == s[lead..]
    requires |t| <= |u| && t == u[..|t|]
    requires forall j :: |t| <= j < |u| ==> IsJsWhitespace(u[j])
    ensures lead + |t| <= |s| && t == s[lead..lead + |t|]
    ensures forall j :: lead + |t| <= j < |s| ==> IsJsWhitespace(s[j])
  {
    forall j | lead + |t| <= j < |s| ensures IsJsWhitespace(s[j]) {
      assert s[j] == u[j - lead];
    }
  }

  /** The longest name a rename can set (server.js:162). */
  const NAME_LIMIT: nat := 15

  /** `msg.name.trim().substring(0, 15)`. */
  function RenameTarget(name: string): (n: string)
    ensures |n| == if |Trim(name)| <= NAME_LIMIT then |Trim(name)| else NAME_LIMIT
    ensures n == Trim(name)[..|n|]
  {
    var t := Trim(name);
    if |t| <= NAME_LIMIT then t else t[..NAME_LIMIT]
  }

  /** The name `identify` settles on (server.js:132-137) and the store after
      it: a uid whose stored name is missing or empty gets `generated`, which
      is stored; any other uid keeps its stored name and the store is left
      as it was. */
  function IdentifyName(users: map<string, string>, uid: string, generated: string): (r: (string, map<string, string>))
    ensures uid in r.1 && r.0 == r.1[uid]
    ensures uid in users && users[uid] != "" ==> r.0 == users[uid] && r.1 == users
    ensures !(uid in users && users[uid] != "") ==> r.0 == generated && r.1 == users[uid := generated]
  {
    if uid in users && users[uid] != "" then (users[uid], users)
    else (generated, users[uid := generated])
  }

  /** A user keeps their name across reconnects: once a uid has been
      identified, identifying it again reuses the name, whatever name would
      have been generated, because generated names are never empty. */
  lemma NameStable(users: map<string, string>, uid: string, g1: string, g2: string)
    requires g1 != ""
    ensures var first := IdentifyName(users, uid, g1);
      IdentifyName(first.1, uid, g2) == (first.0, first.1)
  {
  }

  /** A rename that went through (server.js:163-166) is what the next
      `identify` for that uid finds. */
  lemma RenamePersists(users: map<string, string>, uid: string, name: string, generated: string)
    requires RenameTarget(name) != ""
    ensures IdentifyName(users[uid := RenameTarget(name)], uid, generated).0 == RenameTarget(name)
  {
  }
}
