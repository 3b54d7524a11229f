/** The pending side of the server's binary fan-out: `binaryBroadcastQueue`
    as `broadcastBinarySafely` fills it (server.js:113-117). */
module Scheduler {
  /** The queue bound of server.js:115. */
  const QUEUE_LIMIT: nat := 5

  /** `push(data)`, then one `shift()` when the queue has grown past the
      bound: the newest job is always kept, at most one job is lost and it
      is the oldest pending one. */
  function Enqueue<T>(q: seq<T>, data: T): (r: seq<T>)
    ensures |r| == if |q| + 1 > QUEUE_LIMIT then |q| else |q| + 1
    ensures r == (q + [data])[|q| + 1 - |r|..]
    ensures r[|r| - 1] == data
  {
    var pushed := q + [data];
    if |pushed| > QUEUE_LIMIT then pushed[1..] else pushed
  }

  /** A run of `Enqueue` calls with no job taken out in between. */
  function EnqueueAll<T>(q: seq<T>, ds: seq<T>): seq<T> {
    if ds == [] then q else Enqueue(EnqueueAll(q, ds[..|ds| - 1]), ds[|ds| - 1])
  }

  function Keep(n: nat): nat {
    if n <= QUEUE_LIMIT then n else QUEUE_LIMIT
  }

  /** From a queue within the bound, any run of enqueues leaves exactly the
      newest `min(5, total)` jobs, in arrival order. */
  lemma {:induction false} NewestKept<T>(q: seq<T>, ds: seq<T>)
    requires |q| <= QUEUE_LIMIT
    ensures var all := q + ds;
      EnqueueAll(q, ds) == all[|all| - Keep(|all|)..]
  {
    if ds == [] {
      assert q + ds == q;
    } else {
      var init, d := ds[..|ds| - 1], ds[|ds| - 1];
      NewestKept(q, init);
      var before, all := q + init, q + ds;
      assert ds == init + [d];
      assert all == before + [d];
      var r0 := EnqueueAll(q, init);
      var r := Enqueue(r0, d);
      var j, m := |before| - Keep(|before|), |r0| + 1 - |r|;
      assert r0 == before[j..];
      assert r == (r0 + [d])[m..];
      assert j + m == |all| - Keep(|all|);
      SuffixSnoc(before, j, d, m);
    }
  }

  /** Dropping `m` more from the front of a suffix with `d` appended is
      dropping `j + m` from the whole with `d` appended. */
  lemma SuffixSnoc<T>(s: seq<T>, j: nat, d: T, m: nat)
    requires j <= |s| && m <= |s| - j + 1
    ensures (s[j..] + [d])[m..] == (s + [d])[j + m..]
  {
    assert |(s[j..] + [d])[m..]| == |(s + [d])[j + m..]|;
    forall i | 0 <= i < |s| + 1 - j - m
      ensures (s[j..] + [d])[m..][i] == (s + [d])[j + m..][i]
    {
      if j + m + i < |s| {
        assert (s[j..] + [d])[m + i] == s[j + m + i];
      }
    }
  }
}
