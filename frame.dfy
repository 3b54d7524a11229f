/** The binary frame of one chunk on the wire:
    a 4-byte big-endian metadata length, the metadata bytes (UTF-8 JSON in
    the program, opaque bytes here), then the payload bytes.
    Built in `sendBin` (public/client.js:173-178), taken apart in
    `handleBinary` (public/client.js:209-212). */
module Frame {
  import opened Bytes
  import opened Wrappers

  /** The two parts a frame is cut into. */
  datatype Parts = Parts(meta: seq<byte>, payload: seq<byte>)

  /** `getUint32(0)` throws a RangeError on a buffer shorter than four bytes;
      `handleBinary` catches it and drops the frame. */
  datatype FrameError = TooShort

  /** `new Blob([len, mBuf, slice])`: the length field holds the metadata
      length modulo 2^32, as `setUint32` stores it. */
  function EncodeFrame(meta: seq<byte>, payload: seq<byte>): (f: seq<byte>)
    ensures |f| == 4 + |meta| + |payload|
    ensures f[4..4 + |meta|] == meta && f[4 + |meta|..] == payload
  {
    U32BE(|meta|) + meta + payload
  }

  /** Reads the length L, then `buf.slice(4, 4 + L)` and `buf.slice(4 + L)`.
      `ArrayBuffer.slice` clamps its bounds, so a length past the end gives
      all remaining bytes as metadata and an empty payload. */
  function DecodeFrame(buf: seq<byte>): (r: Result<Parts, FrameError>)
    ensures r.Failure? <==> |buf| < 4
    ensures r.Success? ==> buf == buf[..4] + r.value.meta + r.value.payload
    ensures r.Success? && 4 + ReadU32BE(buf[..4]) <= |buf| ==> |r.value.meta| == ReadU32BE(buf[..4])
    ensures r.Success? && 4 + ReadU32BE(buf[..4]) > |buf| ==> r.value.payload == []
  {
    if |buf| < 4 then Failure(TooShort)
    else
      var len := ReadU32BE(buf[..4]);
      var end := if 4 + len <= |buf| then 4 + len else |buf|;
      assert buf == buf[..4] + buf[4..end] + buf[end..];
      Success(Parts(buf[4..end], buf[end..]))
  }

  /** Decoding an encoded frame returns its metadata and payload exactly,
      as long as the metadata length fits the 32-bit field. */
  lemma DecodeEncoded(meta: seq<byte>, payload: seq<byte>)
    requires |meta| < TWO32
    ensures DecodeFrame(EncodeFrame(meta, payload)) == Success(Parts(meta, payload))
  {
    var f := EncodeFrame(meta, payload);
    assert f[..4] == U32BE(|meta|);
    ReadWritten(|meta|);
  }

  /** Conversely a buffer whose length field fits inside it is exactly the
      encoding of the parts it decodes to. */
  lemma EncodeDecoded(buf: seq<byte>)
    requires |buf| >= 4 && 4 + ReadU32BE(buf[..4]) <= |buf|
    ensures DecodeFrame(buf).Success?
    ensures EncodeFrame(DecodeFrame(buf).value.meta, DecodeFrame(buf).value.payload) == buf
  {
    WrittenRead(buf[..4]);
  }

  /** A length field that overruns the buffer is not rejected by the codec:
      the metadata is all that follows the field and the payload is empty
      (the JSON parse that follows is what may then fail). */
  lemma OverrunLengthKeepsTail(buf: seq<byte>)
    requires |buf| >= 4 && 4 + ReadU32BE(buf[..4]) > |buf|
    ensures DecodeFrame(buf) == Success(Parts(buf[4..], []))
  {
    assert buf[4..|buf|] == buf[4..];
  }
}
