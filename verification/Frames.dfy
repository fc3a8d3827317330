/** CRC-framed messages. The checksum is a parameter: every result holds for any 32-bit function. */
module Frames {
  import opened Bytes
  import opened Wire

  const FRAME_MAGIC: u16 := 0xD0CA
  const PROTOCOL_VERSION: byte := 1
  const FRAME_HEADER_LEN := 32

  type Crc = bytes -> u32

  datatype Frame = Frame(typ: byte, flags: u16, sourceId: u16, baseGpidx: u64, seqNo: u64, payload: bytes)

  /** The 28 header bytes the header checksum covers. */
  function HeaderBody(f: Frame): (h: bytes)
    ensures |h| == 28
  {
    BE(FRAME_MAGIC, 2) + [PROTOCOL_VERSION, f.typ] + BE(f.flags, 2) + BE(f.sourceId, 2)
    + BE(f.baseGpidx, 8) + BE(f.seqNo, 8) + BE(|f.payload| % TWO32, 4)
  }

  function EncodeFrame(crc: Crc, f: Frame): (b: bytes)
    ensures |b| == FRAME_HEADER_LEN + |f.payload| + 4
  {
    HeaderBody(f) + BE(crc(HeaderBody(f)), 4) + f.payload + BE(crc(f.payload), 4)
  }

  datatype ReadResult = Got(frame: Frame, used: nat) | Short | BadMagic | BadVersion | HdrCrc | PayloadHuge | PayCrc

  /** ReadFrame over a byte stream that ends after b. */
  function ReadFrame(crc: Crc, b: bytes): (r: ReadResult)
    ensures r.Got? ==> FRAME_HEADER_LEN < r.used <= |b|
  {
    if |b| < FRAME_HEADER_LEN then Short
    else if Get16BE(b[0..2]) != FRAME_MAGIC then BadMagic
    else if b[2] != PROTOCOL_VERSION then BadVersion
    else if crc(b[0..28]) != Get32BE(b[28..32]) then HdrCrc
    else
      var len := Get32BE(b[24..28]);
      if len > MAX_PAYLOAD_LEN then PayloadHuge
      else if |b| < FRAME_HEADER_LEN + len + 4 then Short
      else if crc(b[32..32 + len]) != Get32BE(b[32 + len..36 + len]) then PayCrc
      else Got(Frame(b[3], Get16BE(b[4..6]), Get16BE(b[6..8]), Get64BE(b[8..16]), Get64BE(b[16..24]), b[32..32 + len]),
               36 + len)
  }

  predicate Capped(fs: seq<Frame>) {
    forall i :: 0 <= i < |fs| ==> |fs[i].payload| <= MAX_PAYLOAD_LEN
  }

  /** The fields of an encoded header, wherever the stream is cut after it. */
  lemma HeaderFields(crc: Crc, f: Frame, b: bytes)
    requires |f.payload| <= MAX_PAYLOAD_LEN && |b| >= FRAME_HEADER_LEN
    requires b[..FRAME_HEADER_LEN] == HeaderBody(f) + BE(crc(HeaderBody(f)), 4)
    ensures b[0..28] == HeaderBody(f) && Get32BE(b[28..32]) == crc(HeaderBody(f))
    ensures Get16BE(b[0..2]) == FRAME_MAGIC && b[2] == PROTOCOL_VERSION && b[3] == f.typ
    ensures Get16BE(b[4..6]) == f.flags && Get16BE(b[6..8]) == f.sourceId
    ensures Get64BE(b[8..16]) == f.baseGpidx && Get64BE(b[16..24]) == f.seqNo
    ensures Get32BE(b[24..28]) == |f.payload|
  {
    hide BE, Get16BE, Get32BE, Get64BE;
    var h, e := HeaderBody(f), b[..FRAME_HEADER_LEN];
    assert b[0..28] == e[0..28] == h;
    assert b[28..32] == e[28..32] == BE(crc(h), 4);
    assert b[0..2] == h[0..2] == BE(FRAME_MAGIC, 2);
    assert b[2] == e[2] == h[2] && b[3] == e[3] == h[3];
    assert b[4..6] == h[4..6] == BE(f.flags, 2);
    assert b[6..8] == h[6..8] == BE(f.sourceId, 2);
    assert b[8..16] == h[8..16] == BE(f.baseGpidx, 8);
    assert b[16..24] == h[16..24] == BE(f.seqNo, 8);
    assert b[24..28] == h[24..28] == BE(|f.payload|, 4);
    GetBEOfBE(FRAME_MAGIC, crc(h), f.baseGpidx);
    GetBEOfBE(f.flags, |f.payload|, f.seqNo);
    GetBEOfBE(f.sourceId, 0, 0);
  }

  /** A frame at the front of a stream is read back whole. */
  lemma ReadEncoded(crc: Crc, f: Frame, rest: bytes)
    requires |f.payload| <= MAX_PAYLOAD_LEN
    ensures ReadFrame(crc, EncodeFrame(crc, f) + rest) == Got(f, |EncodeFrame(crc, f)|)
  {
    hide BE, Get16BE, Get32BE, Get64BE, HeaderBody;
    var b, n := EncodeFrame(crc, f) + rest, |f.payload|;
    assert b[..FRAME_HEADER_LEN] == HeaderBody(f) + BE(crc(HeaderBody(f)), 4);
    HeaderFields(crc, f, b);
    assert b[32..32 + n] == f.payload;
    assert b[32 + n..36 + n] == BE(crc(f.payload), 4);
    GetBEOfBE(0, crc(f.payload), 0);
  }

  /** A frame cut anywhere reads as the end of the stream, never as another frame. */
  lemma ReadCut(crc: Crc, f: Frame, cut: bytes)
    requires |f.payload| <= MAX_PAYLOAD_LEN && cut < EncodeFrame(crc, f)
    ensures ReadFrame(crc, cut) == Short
  {
    hide BE, Get16BE, Get32BE, Get64BE, HeaderBody;
    if |cut| >= FRAME_HEADER_LEN {
      var e := EncodeFrame(crc, f);
      assert cut[..FRAME_HEADER_LEN] == e[..FRAME_HEADER_LEN] == HeaderBody(f) + BE(crc(HeaderBody(f)), 4);
      HeaderFields(crc, f, cut);
    }
  }

  /** The header layout, high byte first; the declared length is the payload's. */
  lemma HeaderBytes(f: Frame)
    ensures var h := HeaderBody(f);
            && h[0..4] == [0xD0, 0xCA, 1, f.typ] && h[4..6] == BE(f.flags, 2) && h[6..8] == BE(f.sourceId, 2)
            && h[8..16] == BE(f.baseGpidx, 8) && h[16..24] == BE(f.seqNo, 8) && h[24..28] == BE(|f.payload| % TWO32, 4)
  {
    hide BE;
    BEBytes(FRAME_MAGIC);
    var h := HeaderBody(f);
    assert h[0..4] == BE(FRAME_MAGIC, 2) + [PROTOCOL_VERSION, f.typ];
  }

  /** The frame layout: header, its checksum, payload, its checksum. */
  lemma FrameBytes(crc: Crc, f: Frame)
    ensures var b, n := EncodeFrame(crc, f), |f.payload|;
            && b[0..28] == HeaderBody(f) && b[28..32] == BE(crc(HeaderBody(f)), 4)
            && b[32..32 + n] == f.payload && b[32 + n..] == BE(crc(f.payload), 4)
  {
    hide BE, HeaderBody;
  }

  /**
   What ReadFrame accepts, of any bytes: a frame within the cap, whole and with both
   checksums right. A damaged header or payload is accepted only where the checksum does
   not tell.
   */
  lemma ReadFrameIff(crc: Crc, b: bytes, f: Frame, used: nat)
    ensures ReadFrame(crc, b) == Got(f, used) <==>
              |f.payload| <= MAX_PAYLOAD_LEN && EncodeFrame(crc, f) <= b && used == |EncodeFrame(crc, f)|
  {
    hide ReadFrame, EncodeFrame;
    if |f.payload| <= MAX_PAYLOAD_LEN && EncodeFrame(crc, f) <= b {
      var e := EncodeFrame(crc, f);
      assert b == e + b[|e|..];
      ReadEncoded(crc, f, b[|e|..]);
    }
    if ReadFrame(crc, b) == Got(f, used) {
      ReadIsEncoded(crc, b, f, used);
    }
  }

  lemma ReadIsEncoded(crc: Crc, b: bytes, f: Frame, used: nat)
    requires ReadFrame(crc, b) == Got(f, used)
    ensures |f.payload| <= MAX_PAYLOAD_LEN && EncodeFrame(crc, f) <= b && used == |EncodeFrame(crc, f)|
  {
    hide BE, Get16BE, Get32BE, Get64BE, HeaderBody;
    HeaderIsEncoded(crc, b, f, used);
    var n := |f.payload|;
    BEOfGet32BE(b[28..32]);
    BEOfGet32BE(b[32 + n..36 + n]);
    assert EncodeFrame(crc, f) == b[0..28] + b[28..32] + b[32..32 + n] + b[32 + n..36 + n];
    assert b[..36 + n] == b[0..28] + b[28..32] + b[32..32 + n] + b[32 + n..36 + n];
  }

  lemma HeaderIsEncoded(crc: Crc, b: bytes, f: Frame, used: nat)
    requires ReadFrame(crc, b) == Got(f, used)
    ensures |b| >= FRAME_HEADER_LEN && b[0..28] == HeaderBody(f)
  {
    hide BE, Get16BE, Get32BE, Get64BE;
    BEOfGet16BE(b[0..2]);
    BEOfGet16BE(b[4..6]);
    BEOfGet16BE(b[6..8]);
    BEOfGet64BE(b[8..16]);
    BEOfGet64BE(b[16..24]);
    BEOfGet32BE(b[24..28]);
    assert b[2..4] == [b[2], b[3]];
    assert b[0..28] == b[0..2] + b[2..4] + b[4..6] + b[6..8] + b[8..16] + b[16..24] + b[24..28];
  }

  /** Why ReadFrame refuses, in the order it looks. */
  lemma ReadFrameRefuses(crc: Crc, b: bytes)
    requires !ReadFrame(crc, b).Got?
    ensures var r := ReadFrame(crc, b);
            && (|b| < FRAME_HEADER_LEN ==> r == Short)
            && (|b| >= FRAME_HEADER_LEN ==>
                  && (r == BadMagic <==> b[0..2] != [0xD0, 0xCA])
                  && (r == BadVersion <==> b[0..2] == [0xD0, 0xCA] && b[2] != 1)
                  && (r == HdrCrc <==> b[0..3] == [0xD0, 0xCA, 1] && BE(crc(b[0..28]), 4) != b[28..32]))
            && (r == PayloadHuge || r == PayCrc ==> |b| >= FRAME_HEADER_LEN && BE(crc(b[0..28]), 4) == b[28..32])
            && (r == PayloadHuge ==> Get32BE(b[24..28]) > MAX_PAYLOAD_LEN)
            && (r == PayCrc ==> var n := Get32BE(b[24..28]);
                  |b| >= 36 + n && BE(crc(b[32..32 + n]), 4) != b[32 + n..36 + n])
  {
    hide BE, Get16BE, Get32BE, Get64BE;
    if |b| >= FRAME_HEADER_LEN {
      MagicBytes(b[0..2]);
      CrcBytes(crc(b[0..28]), b[28..32]);
      assert b[0..3] == b[0..2] + [b[2]];
      var n: nat := Get32BE(b[24..28]);
      if |b| >= 36 + n {
        CrcBytes(crc(b[32..32 + n]), b[32 + n..36 + n]);
      }
    }
  }

  lemma MagicBytes(b: bytes)
    requires |b| == 2
    ensures Get16BE(b) == FRAME_MAGIC <==> b == [0xD0, 0xCA]
  {
    BEBytes(Get16BE(b));
    BEOfGet16BE(b);
  }

  lemma CrcBytes(c: u32, b: bytes)
    requires |b| == 4
    ensures c == Get32BE(b) <==> BE(c, 4) == b
  {
    BEOfGet32BE(b);
    GetBEOfBE(0, c, 0);
  }

  function EncodeFrames(crc: Crc, fs: seq<Frame>): bytes {
    if fs == [] then [] else EncodeFrame(crc, fs[0]) + EncodeFrames(crc, fs[1..])
  }

  /** Frames read until the first error. */
  function ReadAll(crc: Crc, b: bytes): seq<Frame>
    decreases |b|
  {
    match ReadFrame(crc, b)
    case Got(f, used) => [f] + ReadAll(crc, b[used..])
    case _ => []
  }

  /** The error ReadAll stops at. */
  function ReadEnd(crc: Crc, b: bytes): ReadResult
    decreases |b|
  {
    match ReadFrame(crc, b)
    case Got(f, used) => ReadEnd(crc, b[used..])
    case e => e
  }

  /** How many frames lie wholly inside the first n bytes. */
  function Whole(crc: Crc, fs: seq<Frame>, n: nat): (k: nat)
    ensures k <= |fs|
  {
    if fs == [] || n < |EncodeFrame(crc, fs[0])| then 0
    else 1 + Whole(crc, fs[1..], n - |EncodeFrame(crc, fs[0])|)
  }

  /**
   Cut anywhere: from any prefix of a frame stream, repeated reads return exactly the
   frames wholly inside it, in order, and then the end of the stream.
   */
  lemma {:induction false} CutAnywhere(crc: Crc, fs: seq<Frame>, cut: bytes)
    requires Capped(fs) && cut <= EncodeFrames(crc, fs)
    ensures ReadAll(crc, cut) == fs[..Whole(crc, fs, |cut|)]
    ensures ReadEnd(crc, cut) == Short
  {
    hide EncodeFrame, ReadFrame;
    if fs == [] {
      assert ReadFrame(crc, []) == Short by { ShortStream(crc, []); }
    } else {
      var e := EncodeFrame(crc, fs[0]);
      assert |fs[0].payload| <= MAX_PAYLOAD_LEN;
      if |cut| < |e| {
        assert cut == EncodeFrames(crc, fs)[..|cut|] == e[..|cut|];
        ReadCut(crc, fs[0], cut);
      } else {
        var rest := cut[|e|..];
        assert cut == e + rest;
        ReadEncoded(crc, fs[0], rest);
        assert rest <= EncodeFrames(crc, fs[1..]);
        CutAnywhere(crc, fs[1..], rest);
      }
    }
  }

  lemma ShortStream(crc: Crc, b: bytes)
    requires |b| < FRAME_HEADER_LEN
    ensures ReadFrame(crc, b) == Short
  {
  }

  /**
   What the loop gets of any bytes at all: whole frames from the front on, up to the first
   place where no frame can be read, and the reason. Nothing past that place is looked at.
   */
  lemma {:induction false} ReadAllIff(crc: Crc, b: bytes, fs: seq<Frame>, end: ReadResult)
    ensures ReadAll(crc, b) == fs && ReadEnd(crc, b) == end <==>
              var n := |EncodeFrames(crc, fs)|;
              && Capped(fs) && EncodeFrames(crc, fs) <= b
              && ReadFrame(crc, b[n..]) == end && !end.Got?
    decreases |b|
  {
    hide EncodeFrame, ReadFrame;
    var r := ReadFrame(crc, b);
    assert b[0..] == b;
    if fs != [] && Capped(fs) && EncodeFrames(crc, fs) <= b {
      var e := EncodeFrame(crc, fs[0]);
      assert |fs[0].payload| <= MAX_PAYLOAD_LEN && b[..|e|] == EncodeFrames(crc, fs)[..|e|] == e;
      ReadFrameIff(crc, b, fs[0], |e|);
    }
    if r.Got? && fs != [] && fs[0] == r.frame {
      var e, rest := EncodeFrame(crc, r.frame), b[r.used..];
      ReadFrameIff(crc, b, r.frame, r.used);
      assert b == e + rest;
      ReadAllIff(crc, rest, fs[1..], end);
      SameFront(e, EncodeFrames(crc, fs[1..]), rest);
      assert Capped(fs) <==> Capped(fs[1..]) by { CappedRest(fs); }
    }
  }

  lemma SameFront(e: bytes, x: bytes, rest: bytes)
    ensures e + x <= e + rest <==> x <= rest
    ensures x <= rest ==> (e + rest)[|e + x|..] == rest[|x|..]
  {
    if e + x <= e + rest {
      assert x == (e + x)[|e|..] && rest[..|x|] == (e + rest)[..|e + x|][|e|..];
    }
  }

  lemma CappedRest(fs: seq<Frame>)
    requires fs != [] && |fs[0].payload| <= MAX_PAYLOAD_LEN
    ensures Capped(fs) <==> Capped(fs[1..])
  {
    assert fs == [fs[0]] + fs[1..];
  }

  /** The collector's read loop: drain the stream until a read fails. */
  method Drain(crc: Crc, b: bytes) returns (fs: seq<Frame>, end: ReadResult)
    ensures fs == ReadAll(crc, b) && end == ReadEnd(crc, b)
  {
    hide ReadFrame;
    fs := [];
    var rest := b;
    end := ReadFrame(crc, rest);
    while end.Got?
      invariant end == ReadFrame(crc, rest)
      invariant fs + ReadAll(crc, rest) == ReadAll(crc, b) && ReadEnd(crc, rest) == ReadEnd(crc, b)
      decreases |rest|
    {
      fs := fs + [end.frame];
      rest := rest[end.used..];
      end := ReadFrame(crc, rest);
    }
  }
}
