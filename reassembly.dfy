/** The receiver side of a binary transfer: `handleBinary`
    (public/client.js:207-252) files each payload into a per-id sparse slot
    array of the `msgData` map and completes the transfer when the number of
    filled slots equals the declared total. */
module Reassembly {
  import opened Wrappers
  import opened Bytes
  import opened Frame
  import opened Chunker

  /** `entry.chunks`: a JavaScript array written at arbitrary indices. Its
      length is one past the highest index written; a hole is `None`. */
  type Slots = seq<Option<seq<byte>>>

  /** A `msgData` value: `{reactions, chunks, meta, lastUpdate}` and the
      `url` of the finished blob, modelled by the blob's bytes. */
  datatype Entry = Entry(
    reactions: map<string, seq<string>>,
    chunks: Slots,
    meta: Option<ChunkMeta>,
    lastUpdate: int,
    blob: Option<seq<byte>>)

  /** A progress update: `Math.floor(received / total * 100)` is shown. */
  datatype Report = Report(received: nat, total: nat)

  /** What one binary message does. */
  datatype Outcome =
    | Dropped                                      // the frame threw and was caught
    | Stored(report: Option<Report>)               // filed, transfer still incomplete
    | Completed(payload: seq<byte>, final: Report)  // filed, transfer finished

  /** `entry.chunks[i] = p`: the slot is overwritten; writing past the end
      grows the array with holes. */
  function Store(slots: Slots, i: nat, p: seq<byte>): (r: Slots)
    ensures |r| == if i < |slots| then |slots| else i + 1
    ensures r[i] == Some(p)
    ensures forall k :: 0 <= k < |r| && k != i ==> r[k] == if k < |slots| then slots[k] else None
  {
    if i < |slots| then slots[i := Some(p)]
    else slots + seq(i - |slots|, _ => None) + [Some(p)]
  }

  /** `entry.chunks.filter(x => x).length`: an `ArrayBuffer` is truthy even
      when empty, and `filter` skips holes, so this counts filled slots. */
  function Filled(slots: Slots): (n: nat)
    ensures n <= |slots|
  {
    if slots == [] then 0 else (if slots[0].Some? then 1 else 0) + Filled(slots[1..])
  }

  /** The bytes a hole contributes to `new Blob(entry.chunks)`: the parts
      sequence turns `undefined` into the string "undefined". */
  const HOLE: seq<byte> := [117, 110, 100, 101, 102, 105, 110, 101, 100]

  function SlotBytes(s: Option<seq<byte>>): seq<byte> {
    if s.Some? then s.value else HOLE
  }

  /** `new Blob(entry.chunks)`: the slots in index order. */
  function Assemble(slots: Slots): (blob: seq<byte>)
    ensures slots == [] ==> blob == []
    ensures |slots| == 1 ==> blob == SlotBytes(slots[0])
  {
    var parts := seq(|slots|, k requires 0 <= k < |slots| => SlotBytes(slots[k]));
    assert |slots| == 1 ==> parts[1..] == [] && Flatten(parts) == parts[0] + Flatten(parts[1..]);
    Flatten(parts)
  }

  function ChunksOf(md: map<string, Entry>, id: string): Slots {
    if id in md then md[id].chunks else []
  }

  /** One decoded chunk arriving (public/client.js:214-237): create the entry
      on first sight, store the payload, count, report progress when 150 ms
      have passed or the transfer is complete, and on completion keep the
      assembled blob and empty the slot array. */
  function Receive(md: map<string, Entry>, cm: ChunkMeta, slice: seq<byte>, now: int): (res: (map<string, Entry>, Outcome))
    ensures cm.base.id in res.0
    ensures forall id :: id != cm.base.id ==> (id in res.0 <==> id in md) && (id in md ==> res.0[id] == md[id])
    ensures var stored := Store(ChunksOf(md, cm.base.id), cm.chunkIndex, slice);
      && (res.1.Completed? <==> Filled(stored) == cm.totalChunks)
      && (res.1.Completed? ==> res.0[cm.base.id].chunks == [] && res.1.payload == Assemble(stored)
                               && res.1.final == Report(cm.totalChunks, cm.totalChunks))
      && (!res.1.Completed? ==> res.1.Stored? && res.0[cm.base.id].chunks == stored)
    ensures cm.base.id in md ==> res.0[cm.base.id].reactions == md[cm.base.id].reactions
  {
    var mid := cm.base.id;
    var entry := if mid in md then md[mid] else Entry(map[], [], Some(cm), 0, None);
    var chunks := Store(entry.chunks, cm.chunkIndex, slice);
    var received := Filled(chunks);
    var report := now - entry.lastUpdate > 150 || received == cm.totalChunks;
    var lastUpdate := if report then now else entry.lastUpdate;
    if received == cm.totalChunks then
      var payload := Assemble(chunks);
      (md[mid := entry.(chunks := [], lastUpdate := lastUpdate, blob := Some(payload))],
       Completed(payload, Report(received, cm.totalChunks)))
    else
      (md[mid := entry.(chunks := chunks, lastUpdate := lastUpdate)],
       Stored(if report then Some(Report(received, cm.totalChunks)) else None))
  }

  /** `handleBinary(buf)` on `msgData`, before the page is pruned: decode the
      frame, parse its metadata (`parse` stands for
      `JSON.parse(new TextDecoder().decode(...))`, `None` for a throw), then
      `Receive`. Any throw leaves `msgData` as it was. */
  function ReceiveFrame(md: map<string, Entry>, buf: seq<byte>, parse: seq<byte> -> Option<ChunkMeta>, now: int): (res: (map<string, Entry>, Outcome))
    ensures res.1.Dropped? <==> DecodeFrame(buf).Failure? || parse(DecodeFrame(buf).value.meta).None?
    ensures res.1.Dropped? ==> res.0 == md
  {
    match DecodeFrame(buf)
    case Failure(_) => (md, Dropped)
    case Success(parts) =>
      match parse(parts.meta)
      case None => (md, Dropped)
      case Some(cm) => Receive(md, cm, parts.payload, now)
  }

  /** A progress update shows `Math.floor(received / total * 100)`. */
  function ReportPercent(r: Report): (p: nat)
    requires r.total > 0
    ensures r.received <= r.total ==> p <= 100
    ensures r.received == r.total ==> p == 100
  {
    Percent(r.received, r.total)
  }

  /** Storing counts a slot once: the count grows by one exactly when the
      slot was empty, and is unchanged when the index is re-delivered. */
  lemma {:induction false} FilledStore(slots: Slots, i: nat, p: seq<byte>)
    ensures Filled(Store(slots, i, p)) == Filled(slots) + (if i < |slots| && slots[i].Some? then 0 else 1)
  {
    if i < |slots| {
      FilledUpdate(slots, i, Some(p));
    } else {
      var holes: Slots := seq(i - |slots|, _ => None);
      var last: Slots := [Some(p)];
      assert Store(slots, i, p) == slots + (holes + last);
      FilledAppend(slots, holes + last);
      FilledAppend(holes, last);
      FilledHoles(i - |slots|);
      assert |last[1..]| == 0;
    }
  }

  lemma RedeliveryDoesNotCount(slots: Slots, i: nat, p: seq<byte>, q: seq<byte>)
    ensures Filled(Store(Store(slots, i, p), i, q)) == Filled(Store(slots, i, p))
    ensures Store(Store(slots, i, p), i, q) == Store(Store(slots, i, q), i, q)
  {
    FilledStore(Store(slots, i, p), i, q);
  }

  lemma {:induction false} FilledUpdate(slots: Slots, i: nat, v: Option<seq<byte>>)
    requires i < |slots|
    ensures Filled(slots[i := v]) == Filled(slots) - (if slots[i].Some? then 1 else 0) + (if v.Some? then 1 else 0)
  {
    if i > 0 {
      assert slots[i := v][1..] == slots[1..][i - 1 := v];
      FilledUpdate(slots[1..], i - 1, v);
    } else {
      assert slots[i := v][1..] == slots[1..];
    }
  }

  lemma {:induction false} FilledAppend(a: Slots, b: Slots)
    ensures Filled(a + b) == Filled(a) + Filled(b)
  {
    if a != [] {
      assert (a + b)[1..] == a[1..] + b;
      FilledAppend(a[1..], b);
    } else {
      assert a + b == b;
    }
  }

  lemma {:induction false} FilledHoles(n: nat)
    ensures Filled(seq(n, _ => None)) == 0
  {
    if n > 0 {
      var holes: Slots := seq(n, _ => None);
      var rest: Slots := seq(n - 1, _ => None);
      assert holes[1..] == rest;
      FilledHoles(n - 1);
    }
  }

  /** A slot array whose filled count equals its length has no hole. */
  lemma {:induction false} FullHasNoHole(slots: Slots)
    requires Filled(slots) == |slots|
    ensures forall k :: 0 <= k < |slots| ==> slots[k].Some?
  {
    if slots != [] {
      FullHasNoHole(slots[1..]);
      forall k | 0 <= k < |slots| ensures slots[k].Some? {
        if k > 0 { assert slots[k] == slots[1..][k - 1]; }
      }
    }
  }

  /** When the slots are exactly `0..total-1` and all filled, the blob is the
      payloads concatenated in index order, with no hole bytes. */
  lemma AssembleFull(slots: Slots, parts: seq<seq<byte>>)
    requires |slots| == |parts|
    requires forall k :: 0 <= k < |slots| ==> slots[k] == Some(parts[k])
    ensures Assemble(slots) == Flatten(parts)
  {
    assert seq(|slots|, k requires 0 <= k < |slots| => SlotBytes(slots[k])) == parts;
  }

  /** The completing delivery always reports, and reports 100%, even inside
      the 150 ms throttle window. */
  lemma CompletionReportsHundred(md: map<string, Entry>, cm: ChunkMeta, slice: seq<byte>, now: int)
    requires Receive(md, cm, slice, now).1.Completed?
    ensures var r := Receive(md, cm, slice, now).1.final; r.total > 0 && ReportPercent(r) == 100
  {
    FilledOccupied(Store(ChunksOf(md, cm.base.id), cm.chunkIndex, slice), cm.chunkIndex);
  }

  lemma FilledOccupied(slots: Slots, i: nat)
    requires i < |slots| && slots[i].Some?
    ensures Filled(slots) >= 1
  {
    FilledUpdate(slots, i, None);
  }

  /** While every index stays below the declared total, a reported count
      never exceeds the total, so the shown percentage is in [0, 100]. */
  lemma {:induction false} ReportWithinBounds(md: map<string, Entry>, cm: ChunkMeta, slice: seq<byte>, now: int)
    requires cm.chunkIndex < cm.totalChunks
    requires |ChunksOf(md, cm.base.id)| <= cm.totalChunks
    requires Receive(md, cm, slice, now).1.Stored? && Receive(md, cm, slice, now).1.report.Some?
    ensures var r := Receive(md, cm, slice, now).1.report.value;
      r.total > 0 && r.received <= r.total && ReportPercent(r) <= 100
  {
  }

  /** After completion the entry survives with emptied slots, so the same
      single-chunk frame delivered again completes the transfer again. */
  lemma {:induction false} RedeliveredSingleChunkCompletesAgain(md: map<string, Entry>, cm: ChunkMeta, slice: seq<byte>, t1: int, t2: int)
    requires cm.chunkIndex == 0 && cm.totalChunks == 1
    requires ChunksOf(md, cm.base.id) == []
    ensures Receive(md, cm, slice, t1).1 == Completed(slice, Report(1, 1))
    ensures Receive(Receive(md, cm, slice, t1).0, cm, slice, t2).1 == Completed(slice, Report(1, 1))
  {
    var s := Store([], 0, slice);
    assert s == [Some(slice)];
    assert Filled(s) == 1 by { assert |s[1..]| == 0; }
    AssembleFull(s, [slice]);
    assert Flatten([slice]) == slice + Flatten([slice][1..]);
  }

  /** Indices beyond the declared total count towards completion too: with a
      total of 2, chunks 0 and 2 complete the transfer and the blob holds
      "undefined" where chunk 1 should be. */
  lemma {:induction false} StrayIndexCompletesWithHole(md: map<string, Entry>, base: TransferMeta, p0: seq<byte>, p2: seq<byte>, t1: int, t2: int)
    requires base.id !in md
    ensures var first := Receive(md, ChunkMeta(base, 0, 2, |p0|), p0, t1);
      && first.1.Stored?
      && Receive(first.0, ChunkMeta(base, 2, 2, |p2|), p2, t2).1 == Completed(p0 + HOLE + p2, Report(2, 2))
  {
    var s1 := Store([], 0, p0);
    assert s1 == [Some(p0)];
    assert Filled(s1) == 1 by { assert |s1[1..]| == 0; }
    var s2 := Store(s1, 2, p2);
    assert s2 == [Some(p0), None, Some(p2)];
    assert Filled(s2) == 2 by {
      var t1 := s2[1..];
      var t2 := t1[1..];
      assert t1 == [None, Some(p2)];
      assert t2 == [Some(p2)];
      assert |t2[1..]| == 0;
      assert Filled(t2) == 1;
      assert Filled(t1) == Filled(t2);
    }
    var parts := seq(|s2|, k requires 0 <= k < |s2| => SlotBytes(s2[k]));
    assert parts == [p0, HOLE, p2];
    assert Flatten(parts) == p0 + Flatten([HOLE, p2]) by { assert parts[1..] == [HOLE, p2]; }
    assert Flatten([HOLE, p2]) == HOLE + Flatten([p2]) by { assert [HOLE, p2][1..] == [p2]; }
    assert Flatten([p2]) == p2 + Flatten([p2][1..]);
  }
  /** On the metadata of every chunk of one transfer, the serialiser's
      output fits the 32-bit length field and the parser gives the metadata
      back. */
  ghost predicate CodecInvertsOn(ser: ChunkMeta -> seq<byte>, parse: seq<byte> -> Option<ChunkMeta>,
                                 meta: TransferMeta, data: seq<byte>, c: nat)
    requires c > 0
  {
    forall i :: 0 <= i < TotalChunks(|data|, c) ==>
      |ser(ChunkMetaAt(meta, data, c, i))| < TWO32 && parse(ser(ChunkMetaAt(meta, data, c, i))) == Some(ChunkMetaAt(meta, data, c, i))
  }

  /** A codec for one transfer: the metadata is written as its chunk index
      in a 32-bit field, and read back as the metadata of that chunk. */
  function IndexSer(m: ChunkMeta): (b: seq<byte>)
    ensures |b| == 4
  {
    U32BE(m.chunkIndex)
  }

  function IndexParse(meta: TransferMeta, data: seq<byte>, c: nat, b: seq<byte>): (m: Option<ChunkMeta>)
    requires c > 0
    ensures m.Some? ==> m.value.base == meta && m.value.chunkIndex < TotalChunks(|data|, c)
  {
    if |b| >= 4 && ReadU32BE(b) < TotalChunks(|data|, c) then Some(ChunkMetaAt(meta, data, c, ReadU32BE(b))) else None
  }

  lemma IndexCodecAt(meta: TransferMeta, data: seq<byte>, c: nat, i: nat)
    requires c > 0 && i < TotalChunks(|data|, c) < TWO32
    ensures IndexParse(meta, data, c, IndexSer(ChunkMetaAt(meta, data, c, i))) == Some(ChunkMetaAt(meta, data, c, i))
  {
    var m := ChunkMetaAt(meta, data, c, i);
    assert m.chunkIndex == i;
    ReadWritten(i);
    assert ReadU32BE(IndexSer(m)) == i;
  }

  /** The codec assumption can be met: `IndexSer` with `IndexParse` is such a
      pair for any transfer of fewer than 2^32 chunks. */
  lemma CodecExists(meta: TransferMeta, data: seq<byte>, c: nat)
    requires c > 0 && TotalChunks(|data|, c) < TWO32
    ensures exists ser, parse :: CodecInvertsOn(ser, parse, meta, data, c)
  {
    var parse := (b: seq<byte>) => IndexParse(meta, data, c, b);
    forall i | 0 <= i < TotalChunks(|data|, c)
      ensures parse(IndexSer(ChunkMetaAt(meta, data, c, i))) == Some(ChunkMetaAt(meta, data, c, i))
    {
      IndexCodecAt(meta, data, c, i);
    }
    assert CodecInvertsOn(IndexSer, parse, meta, data, c);
  }

  /** `order` lists every chunk index below `n` exactly once. */
  ghost predicate IsPermutation(order: seq<nat>, n: nat) {
    && |order| == n
    && (forall t :: 0 <= t < n ==> order[t] < n)
    && (forall s, t :: 0 <= s < t < n ==> order[s] != order[t])
  }

  /** Binary messages handled one after the other; `clock(t)` is the time at
      the `t`-th. Returns the final map and every outcome in order. */
  function Run(md: map<string, Entry>, parse: seq<byte> -> Option<ChunkMeta>, frames: seq<seq<byte>>, clock: nat -> int): (r: (map<string, Entry>, seq<Outcome>))
    ensures |r.1| == |frames|
    decreases |frames|
  {
    if frames == [] then (md, [])
    else
      var prev := Run(md, parse, frames[..|frames| - 1], clock);
      var step := ReceiveFrame(prev.0, frames[|frames| - 1], parse, clock(|frames| - 1));
      (step.0, prev.1 + [step.1])
  }

  /** The frames of one transfer, in the order given by `order`. */
  function Delivered(ser: ChunkMeta -> seq<byte>, meta: TransferMeta, data: seq<byte>, c: nat, order: seq<nat>): (frames: seq<seq<byte>>)
    requires c > 0 && forall t :: 0 <= t < |order| ==> order[t] < TotalChunks(|data|, c)
    ensures |frames| == |order|
    decreases |order|
  {
    if order == [] then []
    else Delivered(ser, meta, data, c, order[..|order| - 1]) + [ChunkFrame(ser, meta, data, c, order[|order| - 1])]
  }

  /** All chunks of a payload, by index. */
  function AllSlices(data: seq<byte>, c: nat): (parts: seq<seq<byte>>)
    requires c > 0
    ensures |parts| == TotalChunks(|data|, c)
  {
    seq(TotalChunks(|data|, c), j requires 0 <= j < TotalChunks(|data|, c) => ChunkSlice(data, c, j))
  }

  /** The slots hold some of `parts` at their own indices, and only those
      listed in `seen`. */
  ghost predicate HoldsOnly(ch: Slots, parts: seq<seq<byte>>, seen: seq<nat>) {
    && |ch| <= |parts|
    && forall j :: 0 <= j < |ch| && ch[j].Some? ==> j in seen && ch[j].value == parts[j]
  }

  /** Filing a not-yet-seen index keeps `HoldsOnly` and adds one to the count. */
  lemma SlotStep(ch: Slots, parts: seq<seq<byte>>, seen: seq<nat>, i: nat)
    requires HoldsOnly(ch, parts, seen)
    requires i < |parts| && i !in seen
    ensures HoldsOnly(Store(ch, i, parts[i]), parts, seen + [i])
    ensures Filled(Store(ch, i, parts[i])) == Filled(ch) + 1
  {
    FilledStore(ch, i, parts[i]);
    var stored := Store(ch, i, parts[i]);
    forall j | 0 <= j < |stored| && stored[j].Some?
      ensures j in seen + [i] && stored[j].value == parts[j]
    {
    }
  }

  /** A frame of the transfer is received as its own metadata and slice. */
  lemma ReceiveChunkFrame(ser: ChunkMeta -> seq<byte>, parse: seq<byte> -> Option<ChunkMeta>,
                          meta: TransferMeta, data: seq<byte>, c: nat, i: nat, md: map<string, Entry>, now: int)
    requires c > 0 && i < TotalChunks(|data|, c) && CodecInvertsOn(ser, parse, meta, data, c)
    ensures ReceiveFrame(md, ChunkFrame(ser, meta, data, c, i), parse, now)
         == Receive(md, ChunkMetaAt(meta, data, c, i), ChunkSlice(data, c, i), now)
  {
    ChunkFrameDecodes(ser, meta, data, c, i);
  }

  /** The first `k` frames of an ordering are the frames of its first `k`
      indices, and the last of them is the frame of `order[k - 1]`. */
  lemma DeliveredPrefix(ser: ChunkMeta -> seq<byte>, meta: TransferMeta, data: seq<byte>, c: nat, order: seq<nat>, k: nat)
    requires c > 0 && forall t :: 0 <= t < |order| ==> order[t] < TotalChunks(|data|, c)
    requires 0 < k <= |order|
    ensures Delivered(ser, meta, data, c, order[..k])[..k - 1] == Delivered(ser, meta, data, c, order[..k - 1])
    ensures Delivered(ser, meta, data, c, order[..k])[k - 1] == ChunkFrame(ser, meta, data, c, order[k - 1])
  {
    assert order[..k][..k - 1] == order[..k - 1];
  }

  lemma PermutationFresh(order: seq<nat>, n: nat, k: nat)
    requires IsPermutation(order, n) && 0 < k <= n
    ensures order[k - 1] < n && order[k - 1] !in order[..k - 1]
    ensures order[..k - 1] + [order[k - 1]] == order[..k]
  {
  }

  ghost predicate AllStored(outs: seq<Outcome>) {
    forall t :: 0 <= t < |outs| ==> outs[t].Stored?
  }

  /** Invariant of a transfer in progress after `k` deliveries. */
  ghost predicate InProgress(r: (map<string, Entry>, seq<Outcome>), id: string, parts: seq<seq<byte>>, seen: seq<nat>) {
    && AllStored(r.1)
    && HoldsOnly(ChunksOf(r.0, id), parts, seen)
    && Filled(ChunksOf(r.0, id)) == |seen|
  }

  /** One more delivery of a fresh index that does not complete the transfer
      keeps the invariant. */
  lemma StepInProgress(ser: ChunkMeta -> seq<byte>, parse: seq<byte> -> Option<ChunkMeta>,
                       meta: TransferMeta, data: seq<byte>, c: nat,
                       prev: (map<string, Entry>, seq<Outcome>), seen: seq<nat>, i: nat, now: int)
    requires c > 0 && CodecInvertsOn(ser, parse, meta, data, c)
    requires i < TotalChunks(|data|, c) && i !in seen
    requires |seen| + 1 < TotalChunks(|data|, c)
    requires InProgress(prev, meta.id, AllSlices(data, c), seen)
    ensures var step := ReceiveFrame(prev.0, ChunkFrame(ser, meta, data, c, i), parse, now);
      InProgress((step.0, prev.1 + [step.1]), meta.id, AllSlices(data, c), seen + [i])
  {
    ReceiveChunkFrame(ser, parse, meta, data, c, i, prev.0, now);
    SlotStep(ChunksOf(prev.0, meta.id), AllSlices(data, c), seen, i);
  }

  /** After the first `k` frames of a transfer arrive, in any order and with
      the transfer not yet complete, the slots hold exactly those chunks and
      the filled count is `k`. */
  lemma {:induction false} PartialDelivery(ser: ChunkMeta -> seq<byte>, parse: seq<byte> -> Option<ChunkMeta>,
                                           meta: TransferMeta, data: seq<byte>, c: nat, order: seq<nat>,
                                           md: map<string, Entry>, clock: nat -> int, k: nat)
    requires c > 0 && CodecInvertsOn(ser, parse, meta, data, c)
    requires IsPermutation(order, TotalChunks(|data|, c))
    requires ChunksOf(md, meta.id) == []
    requires k < |order|
    ensures InProgress(Run(md, parse, Delivered(ser, meta, data, c, order[..k]), clock), meta.id, AllSlices(data, c), order[..k])
  {
    if k > 0 {
      PartialDelivery(ser, parse, meta, data, c, order, md, clock, k - 1);
      DeliveredPrefix(ser, meta, data, c, order, k);
      PermutationFresh(order, |order|, k);
      var frames := Delivered(ser, meta, data, c, order[..k]);
      var prev := Run(md, parse, frames[..k - 1], clock);
      StepInProgress(ser, parse, meta, data, c, prev, order[..k - 1], order[k - 1], clock(k - 1));
    }
  }

  /** Round trip of a whole transfer: whatever order the frames of a
      non-empty payload arrive in, every delivery but the last leaves the
      transfer incomplete, and the last completes it with the payload
      exactly, reporting 100%. */
  lemma {:induction false} AnyOrderReassembles(ser: ChunkMeta -> seq<byte>, parse: seq<byte> -> Option<ChunkMeta>,
                                               meta: TransferMeta, data: seq<byte>, c: nat, order: seq<nat>,
                                               md: map<string, Entry>, clock: nat -> int)
    requires c > 0 && CodecInvertsOn(ser, parse, meta, data, c)
    requires IsPermutation(order, TotalChunks(|data|, c))
    requires ChunksOf(md, meta.id) == []
    requires |data| > 0
    ensures var r := Run(md, parse, Delivered(ser, meta, data, c, order), clock);
      && |r.1| == |order| > 0
      && AllStored(r.1[..|order| - 1])
      && r.1[|order| - 1] == Completed(data, Report(|order|, |order|))
  {
    var n := |order|;
    PartialDelivery(ser, parse, meta, data, c, order, md, clock, n - 1);
    var frames := Delivered(ser, meta, data, c, order);
    DeliveredLast(ser, meta, data, c, order);
    PermutationFresh(order, n, n);
    var prev := Run(md, parse, frames[..n - 1], clock);
    FinalStep(ser, parse, meta, data, c, prev, order[..n - 1], order[n - 1], clock(n - 1));
    RunLast(md, parse, frames, clock);
  }

  lemma DeliveredLast(ser: ChunkMeta -> seq<byte>, meta: TransferMeta, data: seq<byte>, c: nat, order: seq<nat>)
    requires c > 0 && forall t :: 0 <= t < |order| ==> order[t] < TotalChunks(|data|, c)
    requires 0 < |order|
    ensures Delivered(ser, meta, data, c, order)[..|order| - 1] == Delivered(ser, meta, data, c, order[..|order| - 1])
    ensures Delivered(ser, meta, data, c, order)[|order| - 1] == ChunkFrame(ser, meta, data, c, order[|order| - 1])
  {
  }

  /** The outcomes of a run are those of all but the last message, then the
      last message's. */
  lemma RunLast(md: map<string, Entry>, parse: seq<byte> -> Option<ChunkMeta>, frames: seq<seq<byte>>, clock: nat -> int)
    requires |frames| > 0
    ensures var prev := Run(md, parse, frames[..|frames| - 1], clock);
      && Run(md, parse, frames, clock).1[..|frames| - 1] == prev.1
      && Run(md, parse, frames, clock).1[|frames| - 1]
         == ReceiveFrame(prev.0, frames[|frames| - 1], parse, clock(|frames| - 1)).1
  {
  }

  /** The delivery of the last missing index completes the transfer with the
      payload. */
  lemma FinalStep(ser: ChunkMeta -> seq<byte>, parse: seq<byte> -> Option<ChunkMeta>,
                  meta: TransferMeta, data: seq<byte>, c: nat,
                  prev: (map<string, Entry>, seq<Outcome>), seen: seq<nat>, i: nat, now: int)
    requires c > 0 && CodecInvertsOn(ser, parse, meta, data, c)
    requires i < TotalChunks(|data|, c) && i !in seen
    requires |seen| + 1 == TotalChunks(|data|, c)
    requires InProgress(prev, meta.id, AllSlices(data, c), seen)
    ensures ReceiveFrame(prev.0, ChunkFrame(ser, meta, data, c, i), parse, now).1
         == Completed(data, Report(|seen| + 1, |seen| + 1))
  {
    var parts := AllSlices(data, c);
    var ch := ChunksOf(prev.0, meta.id);
    ReceiveChunkFrame(ser, parse, meta, data, c, i, prev.0, now);
    SlotStep(ch, parts, seen, i);
    FullPayload(Store(ch, i, parts[i]), parts, seen + [i]);
    SentPayloadsRebuildData(data, c);
  }

  /** Slots that hold only chunks of `parts` and count all of them are
      `parts` in order, so the blob is their concatenation. */
  lemma FullPayload(stored: Slots, parts: seq<seq<byte>>, seen: seq<nat>)
    requires HoldsOnly(stored, parts, seen)
    requires Filled(stored) == |parts|
    ensures Assemble(stored) == Flatten(parts)
  {
    FullHasNoHole(stored);
    AssembleFull(stored, parts);
  }
}
