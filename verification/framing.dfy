/** The frame reassembler: splits a byte buffer into complete
    `[tag][Int32 length][payload]` frames and hands back the unconsumed tail of
    an incomplete trailing frame. The only state carried from one call to the
    next is that tail, which the caller prepends to the next chunk. This is
    `Parse` of lib/message_parser.js. */
module Framing {
  import opened Results
  import opened Bytes

  /** One complete frame. `objLength` counts its own four bytes but not the
      tag, so the payload holds objLength - 4 bytes. The tag is kept as the
      raw byte read from the wire. */
  datatype Frame = Frame(tag: byte, objLength: int, data: bytes)

  /** The messages of one call, and the held-back tail (None when the buffer
      was consumed exactly). */
  datatype Chunked = Chunked(frames: seq<Frame>, leftover: Option<bytes>)

  /** Tag byte plus length word. */
  const HEADER_SIZE: nat := 5

  predicate ValidFrame(f: Frame) {
    && 4 <= f.objLength
    && IsInt32(f.objLength)
    && |f.data| == f.objLength - 4
  }

  predicate AllValid(fs: seq<Frame>) {
    forall i :: 0 <= i < |fs| ==> ValidFrame(fs[i])
  }

  /** The wire form of one frame. */
  function EncodeFrame(f: Frame): (r: bytes)
    ensures |r| == HEADER_SIZE + |f.data|
  {
    [f.tag] + BE32(f.objLength) + f.data
  }

  /** The wire form of a sequence of frames, in order. */
  function EncodeFrames(fs: seq<Frame>): bytes {
    if |fs| == 0 then [] else EncodeFrame(fs[0]) + EncodeFrames(fs[1..])
  }

  /** The held-back tail as bytes; the empty sequence when there is none. */
  function Rest(leftover: Option<bytes>): bytes {
    match leftover
    case None => []
    case Some(t) => t
  }

  /** A non-empty tail the reassembler holds back: either fewer than five
      bytes, or a header whose declared payload is not all present yet. */
  predicate Incomplete(t: bytes) {
    && 0 < |t|
    && (|t| < HEADER_SIZE || |t| < Int32(t, 1) + 1)
  }

  /** Puts `fs` in front of the frames of a successful result. */
  function Prepend(fs: seq<Frame>, r: Result<Chunked>): Result<Chunked> {
    match r
    case Ok(c) => Ok(Chunked(fs + c.frames, c.leftover))
    case Err(e) => Err(e)
  }

  /** The reassembler as a recursion on the unconsumed buffer. A header whose
      length is below 4 (it would ask for a negative-size payload) fails. */
  function Reassemble(buf: bytes): (r: Result<Chunked>)
    ensures r.Ok? ==> AllValid(r.value.frames)
    ensures r.Err? ==> r.error == Malformed
    decreases |buf|
  {
    if |buf| == 0 then Ok(Chunked([], None))
    else if |buf| < HEADER_SIZE then Ok(Chunked([], Some(buf)))
    else
      var len := Int32(buf, 1);
      if |buf| < HEADER_SIZE + len - 4 then Ok(Chunked([], Some(buf)))
      else if len < 4 then Err(Malformed)
      else
        var f := Frame(buf[0], len, buf[HEADER_SIZE .. 1 + len]);
        Prepend([f], Reassemble(buf[1 + len..]))
  }

  /** Reassembly is lossless: the wire forms of the emitted frames, in order,
      followed by the leftover, are exactly the input buffer; and a leftover,
      when there is one, is a tail the walk had to hold back. */
  lemma {:induction false} ReassembleLossless(buf: bytes)
    requires Reassemble(buf).Ok?
    ensures EncodeFrames(Reassemble(buf).value.frames) + Rest(Reassemble(buf).value.leftover) == buf
    ensures Reassemble(buf).value.leftover.Some? ==> Incomplete(Reassemble(buf).value.leftover.value)
    decreases |buf|
  {
    if HEADER_SIZE <= |buf| {
      var len := Int32(buf, 1);
      if HEADER_SIZE + len - 4 <= |buf| && 4 <= len {
        var f := Frame(buf[0], len, buf[HEADER_SIZE .. 1 + len]);
        var c := Reassemble(buf[1 + len..]).value;
        ReassembleLossless(buf[1 + len..]);
        HeaderSplit(buf);
        EncodeFramesCons(f, c.frames);
      }
    }
  }

  /** A buffer holding a complete frame is that frame's wire form followed by
      the bytes after it. */
  lemma HeaderSplit(buf: bytes)
    requires HEADER_SIZE <= |buf|
    requires 4 <= Int32(buf, 1) && 1 + Int32(buf, 1) <= |buf|
    ensures
      var len := Int32(buf, 1);
      && ValidFrame(Frame(buf[0], len, buf[HEADER_SIZE .. 1 + len]))
      && EncodeFrame(Frame(buf[0], len, buf[HEADER_SIZE .. 1 + len])) + buf[1 + len..] == buf
  {
    var len := Int32(buf, 1);
    BE32OfInt32(buf, 1);
    assert buf == [buf[0]] + buf[1..HEADER_SIZE] + buf[HEADER_SIZE .. 1 + len] + buf[1 + len..];
  }

  lemma EncodeFramesCons(f: Frame, fs: seq<Frame>)
    requires ValidFrame(f) && AllValid(fs)
    ensures AllValid([f] + fs)
    ensures EncodeFrames([f] + fs) == EncodeFrame(f) + EncodeFrames(fs)
  {
    assert ([f] + fs)[1..] == fs;
  }

  /** The cursor walk of the parser: a position advances over the buffer,
      copying out one frame per iteration, until fewer than five bytes remain
      or the next frame's payload is not all present. */
  method Parse(buf: bytes) returns (r: Result<Chunked>)
    ensures r == Reassemble(buf)
  {
    var messages: seq<Frame> := [];
    var ptr := 0;
    PrependNothing(Reassemble(buf));
    while ptr < |buf|
      invariant 0 <= ptr <= |buf|
      invariant Reassemble(buf) == Prepend(messages, Reassemble(buf[ptr..]))
      decreases |buf| - ptr
    {
      if |buf| < ptr + HEADER_SIZE {
        WalkHoldsBack(buf, ptr, messages);
        return Ok(Chunked(messages, Some(buf[ptr..])));
      }
      var tag := buf[ptr];
      var objLength := Int32(buf, ptr + 1);
      if |buf| < ptr + HEADER_SIZE + objLength - 4 {
        WalkHoldsBack(buf, ptr, messages);
        return Ok(Chunked(messages, Some(buf[ptr..])));
      }
      if objLength < 4 {
        WalkFails(buf, ptr, messages);
        return Err(Malformed);
      }
      var data := buf[ptr + HEADER_SIZE .. ptr + HEADER_SIZE + objLength - 4];
      var next := ptr + HEADER_SIZE + |data|;
      WalkEmits(buf, ptr, objLength, next, messages);
      messages := messages + [Frame(tag, objLength, data)];
      ptr := next;
    }
    WalkEnds(buf, messages);
    return Ok(Chunked(messages, None));
  }

  /** The walk stops at cursor `p` and hands back the suffix from `p`. */
  lemma WalkHoldsBack(buf: bytes, p: nat, messages: seq<Frame>)
    requires p < |buf|
    requires |buf| < p + HEADER_SIZE || |buf| < p + 1 + Int32(buf, p + 1)
    requires Reassemble(buf) == Prepend(messages, Reassemble(buf[p..]))
    ensures Reassemble(buf) == Ok(Chunked(messages, Some(buf[p..])))
  {
    HeldBackAt(buf, p);
    assert messages + [] == messages;
  }

  /** The walk meets a length below 4 at cursor `p` and fails. */
  lemma WalkFails(buf: bytes, p: nat, messages: seq<Frame>)
    requires p + HEADER_SIZE <= |buf|
    requires Int32(buf, p + 1) < 4
    requires Reassemble(buf) == Prepend(messages, Reassemble(buf[p..]))
    ensures Reassemble(buf) == Err(Malformed)
  {
    HeaderAt(buf, p);
  }

  /** The walk emits the complete frame at cursor `p` and moves past it. */
  lemma WalkEmits(buf: bytes, p: nat, len: int, next: nat, messages: seq<Frame>)
    requires p + HEADER_SIZE <= |buf| && len == Int32(buf, p + 1)
    requires 4 <= len && next == p + 1 + len && next <= |buf|
    requires Reassemble(buf) == Prepend(messages, Reassemble(buf[p..]))
    ensures Reassemble(buf)
         == Prepend(messages + [Frame(buf[p], len, buf[p + HEADER_SIZE .. next])], Reassemble(buf[next..]))
  {
    var f := Frame(buf[p], len, buf[p + HEADER_SIZE .. next]);
    var rest := Reassemble(buf[next..]);
    assert Reassemble(buf[p..]) == Prepend([f], rest) by {
      FrameAt(buf, p);
    }
    PrependAssoc(messages, [f], rest);
  }

  /** The walk that reaches the end of the buffer hands back no leftover. */
  lemma WalkEnds(buf: bytes, messages: seq<Frame>)
    requires Reassemble(buf) == Prepend(messages, Reassemble(buf[|buf|..]))
    ensures Reassemble(buf) == Ok(Chunked(messages, None))
  {
    assert buf[|buf|..] == [];
    assert messages + [] == messages;
  }

  lemma PrependNothing(r: Result<Chunked>)
    ensures Prepend([], r) == r
    ensures r.Ok? ==> Prepend(r.value.frames, Ok(Chunked([], r.value.leftover))) == r
  {
    if r.Ok? {
      assert [] + r.value.frames == r.value.frames;
      assert r.value.frames + [] == r.value.frames;
    }
  }

  /** The header read at cursor `p` is the header of the suffix from `p`. */
  lemma HeaderAt(buf: bytes, p: nat)
    requires p + HEADER_SIZE <= |buf|
    ensures Int32(buf[p..], 1) == Int32(buf, p + 1)
  {
  }

  /** At a cursor where the remaining bytes are too few for the header, or
      for the payload the header declares, the walk stops and hands back the
      suffix from the cursor. */
  lemma HeldBackAt(buf: bytes, p: nat)
    requires p < |buf|
    requires |buf| < p + HEADER_SIZE || |buf| < p + 1 + Int32(buf, p + 1)
    ensures Reassemble(buf[p..]) == Ok(Chunked([], Some(buf[p..])))
  {
    if p + HEADER_SIZE <= |buf| {
      HeaderAt(buf, p);
    }
  }

  /** At a cursor where a complete frame is present, the walk emits it and
      continues after it. */
  lemma FrameAt(buf: bytes, p: nat)
    requires p + HEADER_SIZE <= |buf|
    requires 4 <= Int32(buf, p + 1) && p + 1 + Int32(buf, p + 1) <= |buf|
    ensures
      var len := Int32(buf, p + 1);
      Reassemble(buf[p..])
        == Prepend([Frame(buf[p], len, buf[p + HEADER_SIZE .. p + 1 + len])], Reassemble(buf[p + 1 + len..]))
  {
    var s := buf[p..];
    var len := Int32(buf, p + 1);
    HeaderAt(buf, p);
    assert s[HEADER_SIZE .. 1 + len] == buf[p + HEADER_SIZE .. p + 1 + len];
    assert s[1 + len..] == buf[p + 1 + len..];
  }

  lemma PrependAssoc(fs: seq<Frame>, gs: seq<Frame>, r: Result<Chunked>)
    ensures Prepend(fs, Prepend(gs, r)) == Prepend(fs + gs, r)
  {
    if r.Ok? {
      assert fs + (gs + r.value.frames) == (fs + gs) + r.value.frames;
    }
  }

  /** One encoded frame is read back as that frame, and the walk continues
      on what follows it. */
  lemma ReassembleStep(f: Frame, tail: bytes)
    requires ValidFrame(f)
    ensures Reassemble(EncodeFrame(f) + tail) == Prepend([f], Reassemble(tail))
  {
    var buf := EncodeFrame(f) + tail;
    assert buf[1..] == BE32(f.objLength) + (f.data + tail);
    Int32OfBE32(f.objLength, f.data + tail);
    assert Int32(buf, 1) == Int32(buf[1..], 0);
    assert buf[HEADER_SIZE .. 1 + f.objLength] == f.data;
    assert buf[1 + f.objLength..] == tail;
  }

  /** The reassembler reads complete encoded frames back one by one and
      continues on what follows them. */
  lemma {:induction false} ReassembleEncoded(fs: seq<Frame>, t: bytes)
    requires AllValid(fs)
    ensures Reassemble(EncodeFrames(fs) + t) == Prepend(fs, Reassemble(t))
    decreases |fs|
  {
    if |fs| == 0 {
      assert EncodeFrames(fs) + t == t;
      var r := Reassemble(t);
      if r.Ok? {
        assert fs + r.value.frames == r.value.frames;
      }
    } else {
      var f := fs[0];
      var tail := EncodeFrames(fs[1..]) + t;
      assert EncodeFrames(fs) + t == EncodeFrame(f) + tail;
      ReassembleStep(f, tail);
      ReassembleEncoded(fs[1..], t);
      PrependAssoc([f], fs[1..], Reassemble(t));
      assert [f] + fs[1..] == fs;
    }
  }

  /** A held-back tail on its own yields no frame and is handed back whole. */
  lemma IncompleteHeldBack(t: bytes)
    requires Incomplete(t)
    ensures Reassemble(t) == Ok(Chunked([], Some(t)))
  {
  }

  /** Decoding the wire form of valid frames followed by an incomplete tail
      (or nothing) gives back exactly those frames and that tail. */
  lemma ReassembleRoundTrip(fs: seq<Frame>, t: bytes)
    requires AllValid(fs)
    requires t == [] || Incomplete(t)
    ensures Reassemble(EncodeFrames(fs) + t)
         == Ok(Chunked(fs, if t == [] then None else Some(t)))
  {
    ReassembleEncoded(fs, t);
    assert fs + [] == fs;
  }

  /** Three bytes are below the five-byte header: no frame, and the leftover is
      those three bytes unchanged. */
  lemma ThreeBytesHeldBack(a: byte, b: byte, c: byte)
    ensures Reassemble([a, b, c]) == Ok(Chunked([], Some([a, b, c])))
  {
    IncompleteHeldBack([a, b, c]);
  }

  /** Every non-empty strict prefix of one frame's wire form is a tail the
      reassembler holds back. */
  lemma StrictPrefixIncomplete(f: Frame, k: nat)
    requires ValidFrame(f)
    requires 0 < k < |EncodeFrame(f)|
    ensures Incomplete(EncodeFrame(f)[..k])
  {
    var e := EncodeFrame(f);
    var t := e[..k];
    if HEADER_SIZE <= k {
      assert t[1..] == BE32(f.objLength) + e[HEADER_SIZE..k];
      Int32OfBE32(f.objLength, e[HEADER_SIZE..k]);
      assert Int32(t, 1) == Int32(t[1..], 0);
    }
  }

  /** A prefix of the wire form of valid frames is some whole frames followed
      by a strict prefix of the next frame; that prefix plus the rest of the
      buffer is the wire form of the remaining frames. */
  lemma {:induction false} SplitEncoded(fs: seq<Frame>, k: nat) returns (j: nat, t: bytes)
    requires AllValid(fs)
    requires k <= |EncodeFrames(fs)|
    ensures j <= |fs|
    ensures EncodeFrames(fs)[..k] == EncodeFrames(fs[..j]) + t
    ensures t == [] || Incomplete(t)
    ensures t + EncodeFrames(fs)[k..] == EncodeFrames(fs[j..])
    decreases |fs|
  {
    var buf := EncodeFrames(fs);
    if k == 0 {
      j, t := 0, [];
      assert fs[..0] == [] && fs[0..] == fs;
      assert buf[..k] == [] == EncodeFrames(fs[..j]) + t;
      assert t + buf[k..] == buf;
    } else {
      var e := EncodeFrame(fs[0]);
      var rest := EncodeFrames(fs[1..]);
      assert buf == e + rest;
      if k < |e| {
        j, t := 0, buf[..k];
        assert t == e[..k];
        StrictPrefixIncomplete(fs[0], k);
        assert fs[..0] == [] && fs[0..] == fs;
      } else {
        var j', t' := SplitEncoded(fs[1..], k - |e|);
        j, t := j' + 1, t';
        SplitShift(fs, k, j', t');
      }
    }
  }

  /** The step of SplitEncoded past the first frame: a split of the frames
      after the first one, shifted by that frame's wire length. */
  lemma SplitShift(fs: seq<Frame>, k: nat, j: nat, t: bytes)
    requires 0 < |fs| && |EncodeFrame(fs[0])| <= k <= |EncodeFrames(fs)|
    requires j <= |fs[1..]|
    requires EncodeFrames(fs[1..])[..k - |EncodeFrame(fs[0])|] == EncodeFrames(fs[1..][..j]) + t
    requires t + EncodeFrames(fs[1..])[k - |EncodeFrame(fs[0])|..] == EncodeFrames(fs[1..][j..])
    ensures EncodeFrames(fs)[..k] == EncodeFrames(fs[..j + 1]) + t
    ensures t + EncodeFrames(fs)[k..] == EncodeFrames(fs[j + 1..])
  {
    var e := EncodeFrame(fs[0]);
    var rest := EncodeFrames(fs[1..]);
    var buf := EncodeFrames(fs);
    assert buf == e + rest;
    SplitCons(fs, j);
    SliceAfter(e, rest, k);
    calc {
      buf[..k];
      e + rest[..k - |e|];
      e + (EncodeFrames(fs[1..][..j]) + t);
      (e + EncodeFrames(fs[1..][..j])) + t;
    }
  }

  lemma SplitCons(fs: seq<Frame>, j: nat)
    requires 0 < |fs| && j < |fs|
    ensures EncodeFrames(fs[..j + 1]) == EncodeFrame(fs[0]) + EncodeFrames(fs[1..][..j])
    ensures fs[j + 1..] == fs[1..][j..]
  {
    assert fs[..j + 1] == [fs[0]] + fs[1..][..j];
    assert ([fs[0]] + fs[1..][..j])[1..] == fs[1..][..j];
  }

  lemma SliceAfter(e: bytes, rest: bytes, k: nat)
    requires |e| <= k <= |e| + |rest|
    ensures (e + rest)[..k] == e + rest[..k - |e|]
    ensures (e + rest)[k..] == rest[k - |e|..]
  {
  }

  /** Split-point invariance: cutting the wire form of valid frames at any
      point, reassembling the first part, then reassembling its leftover
      followed by the second part, yields all the frames in order and no final
      leftover. */
  lemma SplitPointInvariance(fs: seq<Frame>, k: nat)
    requires AllValid(fs)
    requires k <= |EncodeFrames(fs)|
    ensures Reassemble(EncodeFrames(fs)[..k]).Ok?
    ensures
      var first := Reassemble(EncodeFrames(fs)[..k]).value;
      var second := Reassemble(Rest(first.leftover) + EncodeFrames(fs)[k..]);
      && second.Ok?
      && second.value.leftover.None?
      && first.frames + second.value.frames == fs
  {
    var buf := EncodeFrames(fs);
    var j, t := SplitEncoded(fs, k);
    var before, after := fs[..j], fs[j..];
    assert before + after == fs;
    assert AllValid(before) && AllValid(after);
    var lo := if t == [] then None else Some(t);
    assert Rest(lo) == t;
    assert Reassemble(buf[..k]) == Ok(Chunked(before, lo)) by {
      ReassembleRoundTrip(before, t);
    }
    var second := t + buf[k..];
    assert second == EncodeFrames(after) + [];
    assert Reassemble(second) == Ok(Chunked(after, None)) by {
      ReassembleRoundTrip(after, []);
    }
  }
}
