/** `sendInFragments` (server.js:76-95): one binary message cut into
    RFC 6455 fragments (section 5.4 of RFC 6455), each at most
    `FRAGMENT_SIZE` bytes, with the FIN bit on the last one only. */
module Fragmentation {
  import opened Bytes
  import opened Chunker

  /** `FRAGMENT_SIZE` (server.js:20). */
  const FRAGMENT_SIZE: nat := 32 * 1024

  /** One `ws.send(chunk, { fin })` call. */
  datatype Fragment = Fragment(data: seq<byte>, fin: bool)

  /** What a receiver puts back together: the fragments' payloads in order. */
  function Joined(frags: seq<Fragment>): (b: seq<byte>)
    ensures |b| == 0 ==> forall i :: 0 <= i < |frags| ==> |frags[i].data| == 0
  {
    if frags == [] then [] else Joined(frags[..|frags| - 1]) + frags[|frags| - 1].data
  }

  lemma JoinedSnoc(frags: seq<Fragment>, f: Fragment)
    ensures Joined(frags + [f]) == Joined(frags) + f.data
  {
    assert (frags + [f])[..|frags|] == frags;
  }

  function Min(a: int, b: int): int {
    if a <= b then a else b
  }

  /** Fragment `i` of `buffer`: `buffer.slice(offset, offset + FRAGMENT_SIZE)`
      with `offset = i * FRAGMENT_SIZE`, clamped at the end as `slice` is. */
  function FragmentData(buffer: seq<byte>, i: nat): (d: seq<byte>)
    requires i * FRAGMENT_SIZE <= |buffer|
    ensures |d| <= FRAGMENT_SIZE
    ensures |d| == 0 <==> i * FRAGMENT_SIZE == |buffer|
    ensures i * FRAGMENT_SIZE + FRAGMENT_SIZE <= |buffer| ==> |d| == FRAGMENT_SIZE
  {
    var lo := i * FRAGMENT_SIZE;
    buffer[lo .. Min(lo + FRAGMENT_SIZE, |buffer|)]
  }

  /** The first `k` fragments of `buffer`; fragment `i` carries `fin` when
      `i * FRAGMENT_SIZE + FRAGMENT_SIZE >= |buffer|`, the test of server.js:78. */
  function Cut(buffer: seq<byte>, k: nat): (frags: seq<Fragment>)
    requires k == 0 || (k - 1) * FRAGMENT_SIZE < |buffer|
    ensures |frags| == k
  {
    if k == 0 then []
    else Cut(buffer, k - 1) + [Fragment(FragmentData(buffer, k - 1), (k - 1) * FRAGMENT_SIZE + FRAGMENT_SIZE >= |buffer|)]
  }

  /** `sendInFragments(ws, buffer)`: the fragments handed to the socket, in
      order, which are those of `Cut` for `ceil(|buffer| / FRAGMENT_SIZE)`
      fragments (none for an empty buffer); joined they give back `buffer`. */
  method SendInFragments(buffer: seq<byte>) returns (frags: seq<Fragment>)
    ensures |frags| == TotalChunks(|buffer|, FRAGMENT_SIZE)
    ensures frags == Cut(buffer, |frags|)
    ensures Joined(frags) == buffer
  {
    frags := [];
    var offset := 0;
    while offset < |buffer|
      invariant offset == |frags| * FRAGMENT_SIZE
      invariant |frags| == 0 || (|frags| - 1) * FRAGMENT_SIZE < |buffer|
      invariant frags == Cut(buffer, |frags|)
    {
      var isLast := offset + FRAGMENT_SIZE >= |buffer|;
      var chunk := buffer[offset .. Min(offset + FRAGMENT_SIZE, |buffer|)];
      frags := frags + [Fragment(chunk, isLast)];
      offset := offset + FRAGMENT_SIZE;
    }
    CountIsCeiling(|buffer|, |frags|);
    CutJoined(buffer, |frags|);
    assert buffer[..Min(offset, |buffer|)] == buffer;
  }

  /** The first `k` fragments joined are the first `k * FRAGMENT_SIZE` bytes. */
  lemma {:induction false} CutJoined(buffer: seq<byte>, k: nat)
    requires k == 0 || (k - 1) * FRAGMENT_SIZE < |buffer|
    ensures Joined(Cut(buffer, k)) == buffer[..Min(k * FRAGMENT_SIZE, |buffer|)]
  {
    if k > 0 {
      var lo := (k - 1) * FRAGMENT_SIZE;
      OffsetStep(k);
      if k > 1 {
        OffsetStep(k - 1);
      }
      CutJoined(buffer, k - 1);
      assert Min(lo, |buffer|) == lo;
      var last := Fragment(FragmentData(buffer, k - 1), lo + FRAGMENT_SIZE >= |buffer|);
      assert Cut(buffer, k) == Cut(buffer, k - 1) + [last];
      JoinedStep(buffer, Cut(buffer, k - 1), lo, last);
    }
  }

  /** Consecutive fragment offsets are `FRAGMENT_SIZE` apart. */
  lemma OffsetStep(k: nat)
    requires k > 0
    ensures k * FRAGMENT_SIZE == (k - 1) * FRAGMENT_SIZE + FRAGMENT_SIZE
  {
  }

  /** Appending the fragment at offset `lo` extends the joined prefix by
      that fragment's bytes. */
  lemma JoinedStep(buffer: seq<byte>, prefix: seq<Fragment>, lo: nat, last: Fragment)
    requires lo < |buffer|
    requires Joined(prefix) == buffer[..lo]
    requires last.data == buffer[lo..Min(lo + FRAGMENT_SIZE, |buffer|)]
    ensures Joined(prefix + [last]) == buffer[..Min(lo + FRAGMENT_SIZE, |buffer|)]
  {
    JoinedSnoc(prefix, last);
    var hi := Min(lo + FRAGMENT_SIZE, |buffer|);
    assert buffer[..hi] == buffer[..lo] + buffer[lo..hi];
  }

  /** Fragment `i` of `Cut` is the slice at `i * FRAGMENT_SIZE`, and carries
      `fin` exactly when it reaches the end of the buffer. */
  lemma {:induction false} CutAt(buffer: seq<byte>, k: nat, i: nat)
    requires k == 0 || (k - 1) * FRAGMENT_SIZE < |buffer|
    requires i < k
    ensures i * FRAGMENT_SIZE < |buffer|
    ensures Cut(buffer, k)[i].data == FragmentData(buffer, i)
    ensures Cut(buffer, k)[i].fin <==> i * FRAGMENT_SIZE + FRAGMENT_SIZE >= |buffer|
  {
    if i < k - 1 {
      CutAt(buffer, k - 1, i);
    }
  }

  /** The RFC 6455 framing `sendInFragments` produces: every fragment holds
      between 1 and `FRAGMENT_SIZE` bytes, every one but the last exactly
      `FRAGMENT_SIZE`, and `fin` is set on the last fragment and no other. */
  lemma Fragmented(buffer: seq<byte>, i: nat)
    requires i < TotalChunks(|buffer|, FRAGMENT_SIZE)
    ensures var frags := Cut(buffer, TotalChunks(|buffer|, FRAGMENT_SIZE));
      && 0 < |frags[i].data| <= FRAGMENT_SIZE
      && (i < |frags| - 1 ==> |frags[i].data| == FRAGMENT_SIZE)
      && (frags[i].fin <==> i == |frags| - 1)
  {
    var n := TotalChunks(|buffer|, FRAGMENT_SIZE);
    CutAt(buffer, n, i);
    if i < n - 1 {
      InnerFragment(|buffer|, n, i);
    } else {
      assert i == n - 1;
      LastFragment(|buffer|, n);
    }
  }

  lemma InnerFragment(size: nat, n: nat, i: nat)
    requires (n - 1) * FRAGMENT_SIZE < size
    requires i < n - 1
    ensures i * FRAGMENT_SIZE + FRAGMENT_SIZE < size
  {
    MulMono(i + 1, n - 1, FRAGMENT_SIZE);
  }

  lemma LastFragment(size: nat, n: nat)
    requires 0 < n && size <= n * FRAGMENT_SIZE && (n - 1) * FRAGMENT_SIZE < size
    ensures (n - 1) * FRAGMENT_SIZE + FRAGMENT_SIZE >= size
  {
  }

  lemma CountIsCeiling(size: nat, n: nat)
    requires size <= n * FRAGMENT_SIZE
    requires n == 0 || (n - 1) * FRAGMENT_SIZE < size
    ensures n == TotalChunks(size, FRAGMENT_SIZE)
  {
    CeilUnique(size, FRAGMENT_SIZE, n, TotalChunks(size, FRAGMENT_SIZE));
  }
}
