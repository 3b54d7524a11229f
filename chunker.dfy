/** The sender side of a binary transfer: `sendBin` (public/client.js:154-202)
    cuts the payload into `CHUNK_SIZE` slices and sends each slice as its own
    self-describing frame. */
module Chunker {
  import opened Wrappers
  import opened Bytes
  import opened Frame

  /** `CHUNK_SIZE` (public/client.js:14): 1 MiB. */
  const CHUNK_SIZE: nat := 1024 * 1024

  datatype MediaKind = File | Voice

  /** The metadata the caller of `sendBin` builds: for a file at
      public/client.js:405 (with a name), for a voice note at
      public/client.js:429 (without one). */
  datatype TransferMeta = TransferMeta(
    id: string,
    kind: MediaKind,
    sender: string,
    timestamp: int,
    name: Option<string>,
    mime: string,
    size: nat)

  /** `{...meta, chunkIndex, totalChunks, chunkSize}`: the caller's metadata
      with the three sequencing fields laid over it. */
  datatype ChunkMeta = ChunkMeta(
    base: TransferMeta,
    chunkIndex: nat,
    totalChunks: nat,
    chunkSize: nat)

  /** `Math.ceil(totalSize / CHUNK_SIZE)`: the fewest slices of size `c` that
      cover `size` bytes; zero for an empty payload. */
  function TotalChunks(size: nat, c: nat): (n: nat)
    requires c > 0
    ensures size <= n * c
    ensures n == 0 || (n - 1) * c < size
  {
    var n := (size + c - 1) / c;
    assert size + c - 1 == n * c + (size + c - 1) % c;
    n
  }

  /** Bytes `[i*c, min(i*c + c, size))` of the payload: `data.slice(start, end)`. */
  function ChunkSlice(data: seq<byte>, c: nat, i: nat): (s: seq<byte>)
    requires c > 0 && i < TotalChunks(|data|, c)
    ensures |s| <= c
  {
    var start := i * c;
    MulMono(i, TotalChunks(|data|, c) - 1, c);
    var end := if start + c < |data| then start + c else |data|;
    data[start..end]
  }

  /** The metadata of chunk `i`. */
  function ChunkMetaAt(meta: TransferMeta, data: seq<byte>, c: nat, i: nat): (m: ChunkMeta)
    requires c > 0 && i < TotalChunks(|data|, c)
    ensures m.base == meta && m.chunkIndex < m.totalChunks && m.chunkSize <= c
  {
    ChunkMeta(meta, i, TotalChunks(|data|, c), |ChunkSlice(data, c, i)|)
  }

  /** The frame sent for chunk `i`; `ser` stands for
      `new TextEncoder().encode(JSON.stringify(chunkMeta))`. */
  function ChunkFrame(ser: ChunkMeta -> seq<byte>, meta: TransferMeta, data: seq<byte>, c: nat, i: nat): (f: seq<byte>)
    requires c > 0 && i < TotalChunks(|data|, c)
    ensures 4 + |ser(ChunkMetaAt(meta, data, c, i))| <= |f| <= 4 + |ser(ChunkMetaAt(meta, data, c, i))| + c
  {
    EncodeFrame(ser(ChunkMetaAt(meta, data, c, i)), ChunkSlice(data, c, i))
  }

  /** `Math.floor((k / n) * 100)`, computed exactly. */
  function Percent(k: nat, n: nat): (p: nat)
    requires n > 0
    ensures k <= n ==> p <= 100
    ensures k == n ==> p == 100
  {
    if k <= n then PercentBounds(k, n); (k * 100) / n else (k * 100) / n
  }

  lemma PercentBounds(k: nat, n: nat)
    requires 0 < n && k <= n
    ensures (k * 100) / n <= 100
    ensures k == n ==> (k * 100) / n == 100
  {
    MulMono(k, n, 100);
    DivLe(k * 100, n, 100);
    if k == n {
      DivSelf(100, n);
    }
  }

  lemma DivLe(x: nat, n: nat, b: nat)
    requires n > 0 && x <= b * n
    ensures x / n <= b
  {
    var q := x / n;
    assert x == q * n + x % n;
  }

  lemma DivSelf(b: nat, n: nat)
    requires n > 0
    ensures (b * n) / n == b
  {
    var q := (b * n) / n;
    assert b * n == q * n + (b * n) % n;
    if q < b {
      assert (q + 1) * n == q * n + n;
      MulMono(q + 1, b, n);
    }
  }

  lemma MulMono(a: nat, b: nat, c: nat)
    requires a <= b
    ensures a * c <= b * c
  {
    assert b * c == a * c + (b - a) * c;
  }

  /** Two counts that both satisfy the ceiling characterisation are equal. */
  lemma CeilUnique(size: nat, c: nat, n1: nat, n2: nat)
    requires c > 0
    requires size <= n1 * c && (n1 == 0 || (n1 - 1) * c < size)
    requires size <= n2 * c && (n2 == 0 || (n2 - 1) * c < size)
    ensures n1 == n2
  {
    if n1 < n2 {
      MulMono(n1, n2 - 1, c);
    } else if n2 < n1 {
      MulMono(n2, n1 - 1, c);
    }
  }

  /** The payload cut into chunks, first chunk first. */
  function Chunks(data: seq<byte>, c: nat): seq<seq<byte>>
    requires c > 0
    decreases |data|
  {
    if |data| == 0 then []
    else if |data| <= c then [data]
    else [data[..c]] + Chunks(data[c..], c)
  }

  /** Concatenating the chunks in index order gives back the payload. */
  lemma {:induction false} ChunksFlatten(data: seq<byte>, c: nat)
    requires c > 0
    ensures Flatten(Chunks(data, c)) == data
    decreases |data|
  {
    if |data| == 0 {
    } else if |data| <= c {
      assert Flatten([data]) == data + Flatten([data][1..]);
    } else {
      var rest := Chunks(data[c..], c);
      ChunksFlatten(data[c..], c);
      assert ([data[..c]] + rest)[1..] == rest;
      assert data[..c] + data[c..] == data;
    }
  }

  /** The recursive cut and the index arithmetic of `sendBin` agree: there
      are `TotalChunks` chunks and chunk `i` is `ChunkSlice(data, c, i)`. */
  lemma {:induction false} ChunksAreSlices(data: seq<byte>, c: nat)
    requires c > 0
    ensures |Chunks(data, c)| == TotalChunks(|data|, c)
    ensures forall i :: 0 <= i < |Chunks(data, c)| ==> Chunks(data, c)[i] == ChunkSlice(data, c, i)
    decreases |data|
  {
    var n := TotalChunks(|data|, c);
    if |data| == 0 {
      CeilUnique(0, c, n, 0);
    } else if |data| <= c {
      CeilUnique(|data|, c, n, 1);
    } else {
      var tail := data[c..];
      ChunksAreSlices(tail, c);
      TotalChunksStep(|data|, c);
      forall i | 0 <= i < n
        ensures Chunks(data, c)[i] == ChunkSlice(data, c, i)
      {
        if i > 0 {
          assert Chunks(data, c)[i] == Chunks(tail, c)[i - 1];
          SliceShift(data, c, i);
        }
      }
    }
  }

  /** A payload longer than one chunk has one chunk more than its tail. */
  lemma TotalChunksStep(size: nat, c: nat)
    requires 0 < c < size
    ensures TotalChunks(size, c) == TotalChunks(size - c, c) + 1
  {
    var m := TotalChunks(size - c, c);
    assert m * c < size by {
      if m > 0 { assert (m - 1) * c < size - c; }
    }
    assert (m + 1) * c == m * c + c;
    CeilUnique(size, c, TotalChunks(size, c), m + 1);
  }

  /** Chunk `i` of the payload is chunk `i - 1` of the payload without its
      first `c` bytes. */
  lemma SliceShift(data: seq<byte>, c: nat, i: nat)
    requires 0 < c < |data| && 0 < i < TotalChunks(|data|, c)
    ensures i - 1 < TotalChunks(|data| - c, c)
    ensures ChunkSlice(data[c..], c, i - 1) == ChunkSlice(data, c, i)
  {
    TotalChunksStep(|data|, c);
    var lo := (i - 1) * c;
    assert lo + c == i * c;
    MulMono(i, TotalChunks(|data|, c) - 1, c);
    var hi := if lo + c < |data| - c then lo + c else |data| - c;
    assert ChunkSlice(data[c..], c, i - 1) == data[c..][lo..hi];
    assert ChunkSlice(data, c, i) == data[lo + c..hi + c];
    assert data[c..][lo..hi] == data[lo + c..hi + c];
  }

  /** Every chunk but the last is exactly `c` bytes; the last is non-empty and
      at most `c` bytes; an empty payload has no chunk at all. */
  lemma SliceLengths(data: seq<byte>, c: nat, i: nat)
    requires c > 0 && i < TotalChunks(|data|, c)
    ensures i + 1 < TotalChunks(|data|, c) ==> |ChunkSlice(data, c, i)| == c
    ensures 0 < |ChunkSlice(data, c, i)| <= c
    ensures |data| > 0
  {
    var n := TotalChunks(|data|, c);
    MulMono(i, n - 1, c);
    if i + 1 < n {
      MulMono(i + 1, n - 1, c);
    }
  }

  /** Every chunk's metadata carries its own index, the shared total and its
      payload's length, and its frame decodes back to exactly those parts. */
  lemma {:induction false} ChunkFrameDecodes(ser: ChunkMeta -> seq<byte>, meta: TransferMeta, data: seq<byte>, c: nat, i: nat)
    requires c > 0 && i < TotalChunks(|data|, c)
    requires |ser(ChunkMetaAt(meta, data, c, i))| < TWO32
    ensures var m := ChunkMetaAt(meta, data, c, i);
      && m.base == meta && m.chunkIndex == i && m.chunkIndex < m.totalChunks
      && m.totalChunks == TotalChunks(|data|, c)
      && m.chunkSize == |ChunkSlice(data, c, i)|
      && DecodeFrame(ChunkFrame(ser, meta, data, c, i)) == Success(Parts(ser(m), ChunkSlice(data, c, i)))
  {
    DecodeEncoded(ser(ChunkMetaAt(meta, data, c, i)), ChunkSlice(data, c, i));
  }

  /** `sendBin(meta, data)`. The socket and the clock are inputs:
      `openAtStart` is the `readyState === 1` test on entry, `open(i)` the
      test after the backpressure wait before chunk `i` (the wait itself is
      abstract), `clock(i)` the `Date.now()` read after sending chunk `i`.
      Returns the frames sent, the "Uploading" percentages shown, and whether
      the final "Sent" update was shown. Nothing is awaited between the last
      test in the loop (or the last `send`) and the final `readyState` test,
      so that test fails after a break and passes after a full send. */
  method SendBin(meta: TransferMeta, data: seq<byte>, ser: ChunkMeta -> seq<byte>,
                 openAtStart: bool, open: nat -> bool, clock: nat -> int)
    returns (sent: seq<seq<byte>>, progress: seq<nat>, finished: bool)
    ensures !openAtStart ==> sent == [] && progress == [] && !finished
    ensures |sent| <= TotalChunks(|data|, CHUNK_SIZE)
    ensures forall i :: 0 <= i < |sent| ==> open(i) && sent[i] == ChunkFrame(ser, meta, data, CHUNK_SIZE, i)
    ensures openAtStart && |sent| < TotalChunks(|data|, CHUNK_SIZE) ==> !open(|sent|)
    ensures |progress| <= |sent|
    ensures forall i :: 0 <= i < |progress| ==> progress[i] <= 100
    ensures 0 < |sent| == TotalChunks(|data|, CHUNK_SIZE) ==> |progress| > 0 && progress[|progress| - 1] == 100
    ensures |data| == 0 ==> sent == [] && progress == []
    ensures finished <==> openAtStart && |sent| == TotalChunks(|data|, CHUNK_SIZE)
  {
    if !openAtStart {
      return [], [], false;
    }
    var totalSize := |data|;
    var totalChunks := TotalChunks(totalSize, CHUNK_SIZE);
    var lastUiUpdate := 0;
    sent, progress := [], [];
    var i := 0;
    while i < totalChunks
      invariant 0 <= i <= totalChunks
      invariant |sent| == i
      invariant forall j :: 0 <= j < i ==> open(j) && sent[j] == ChunkFrame(ser, meta, data, CHUNK_SIZE, j)
      invariant |progress| <= i
      invariant forall j :: 0 <= j < |progress| ==> progress[j] <= 100
      invariant i == totalChunks > 0 ==> |progress| > 0 && progress[|progress| - 1] == 100
    {
      var start := i * CHUNK_SIZE;
      MulMono(i, totalChunks - 1, CHUNK_SIZE);
      var end := if start + CHUNK_SIZE < totalSize then start + CHUNK_SIZE else totalSize;
      var slice := data[start..end];
      var chunkMeta := ChunkMeta(meta, i, totalChunks, |slice|);
      var pkg := EncodeFrame(ser(chunkMeta), slice);
      if !open(i) {
        break;
      }
      sent := sent + [pkg];
      var now := clock(i);
      if now - lastUiUpdate > 100 || i == totalChunks - 1 {
        var percent := Percent(i + 1, totalChunks);
        progress := progress + [percent];
        lastUiUpdate := now;
      }
      i := i + 1;
    }
    finished := i == totalChunks;
  }

  /** The whole transfer, when the socket stays open: one frame per chunk,
      and their payloads, in order, concatenate to the payload. */
  lemma SentPayloadsRebuildData(data: seq<byte>, c: nat)
    requires c > 0
    ensures Flatten(seq(TotalChunks(|data|, c), i requires 0 <= i < TotalChunks(|data|, c) => ChunkSlice(data, c, i))) == data
  {
    ChunksAreSlices(data, c);
    ChunksFlatten(data, c);
    assert seq(TotalChunks(|data|, c), i requires 0 <= i < TotalChunks(|data|, c) => ChunkSlice(data, c, i)) == Chunks(data, c);
  }

  /** An empty payload has zero chunks (so `SendBin` sends no frame and,
      on an open socket, shows "Sent" at once). */
  lemma EmptyPayloadSendsNothing(c: nat)
    requires c > 0
    ensures TotalChunks(0, c) == 0
  {
    CeilUnique(0, c, TotalChunks(0, c), 0);
  }
}
