/**
 Classic libpcap files: a 24-byte global header followed by records, each a
 16-byte little-endian header and a body of the declared capture length.
 */
module Pcap {
  import opened Bytes

  const GLOBAL_HEADER_LEN := 24
  const RECORD_HEADER_LEN := 16
  const MAGIC_MICROS: u32 := 0xa1b2c3d4

  datatype GlobalHeader = GlobalHeader(snaplen: u32, linkType: u32)

  /** One packet. The capture length is the length of data. */
  datatype Record = Record(tsSec: u32, tsUsec: u32, origLen: u32, data: bytes)

  function EncodeGlobalHeader(g: GlobalHeader): (b: bytes)
    ensures |b| == GLOBAL_HEADER_LEN && HeaderOk(b)
  {
    var b := LE(MAGIC_MICROS, 4) + LE(2, 2) + LE(4, 2) + LE(0, 4) + LE(0, 4) + LE(g.snaplen, 4) + LE(g.linkType, 4);
    assert b[0..4] == LE(MAGIC_MICROS, 4);
    Get32LEOfLE(MAGIC_MICROS);
    b
  }

  /** ParseGlobalHeader accepts b: long enough and starting with the microsecond magic. */
  predicate HeaderOk(b: bytes) {
    |b| >= GLOBAL_HEADER_LEN && Get32LE(b[0..4]) == MAGIC_MICROS
  }

  /** ParseGlobalHeader. */
  function ParseGlobalHeader(b: bytes): Option<GlobalHeader> {
    if HeaderOk(b) then Some(GlobalHeader(Get32LE(b[16..20]), Get32LE(b[20..24]))) else None
  }

  lemma HeaderRoundTrip(g: GlobalHeader, rest: bytes)
    ensures ParseGlobalHeader(EncodeGlobalHeader(g) + rest) == Some(g)
  {
    hide LE, Get32LE;
    var e := EncodeGlobalHeader(g);
    var b := e + rest;
    assert b[0..4] == e[0..4] && b[16..20] == e[16..20] == LE(g.snaplen, 4)
      && b[20..24] == e[20..24] == LE(g.linkType, 4);
    Get32LEOfLE(g.snaplen);
    Get32LEOfLE(g.linkType);
  }

  function EncodeRecord(r: Record): (b: bytes)
    ensures |b| == RECORD_HEADER_LEN + |r.data|
  {
    LE(r.tsSec, 4) + LE(r.tsUsec, 4) + LE(|r.data| % TWO32, 4) + LE(r.origLen, 4) + r.data
  }

  /** The file layout of libpcap: magic and version, two zero words, snaplen and link type, low byte first. */
  lemma HeaderBytes(g: GlobalHeader)
    ensures var b := EncodeGlobalHeader(g);
            && b[0..8] == [0xd4, 0xc3, 0xb2, 0xa1, 2, 0, 4, 0] && b[8..16] == [0, 0, 0, 0, 0, 0, 0, 0]
            && b[16..20] == LE(g.snaplen, 4) && b[20..24] == LE(g.linkType, 4)
  {
    hide LE;
    var b := EncodeGlobalHeader(g);
    SmallBytes();
    assert b[0..8] == LE(MAGIC_MICROS, 4) + LE(2, 2) + LE(4, 2);
    assert b[8..16] == LE(0, 4) + LE(0, 4);
  }

  lemma SmallBytes()
    ensures LE(MAGIC_MICROS, 4) == [0xd4, 0xc3, 0xb2, 0xa1] && LE(2, 2) == [2, 0] && LE(4, 2) == [4, 0]
    ensures LE(0, 4) == [0, 0, 0, 0]
  {
    LEBytes(MAGIC_MICROS);
    LEBytes(0);
    assert LE(0, 1) == [0] && LE(2, 2) == [2] + LE(0, 1) && LE(4, 2) == [4] + LE(0, 1);
  }

  /** The record layout: seconds, microseconds, captured and original length, then the data. */
  lemma RecordBytes(r: Record)
    ensures var b := EncodeRecord(r);
            && b[0..4] == LE(r.tsSec, 4) && b[4..8] == LE(r.tsUsec, 4) && b[8..12] == LE(|r.data| % TWO32, 4)
            && b[12..16] == LE(r.origLen, 4) && b[16..] == r.data
  {
    hide LE;
  }

  predicate Fits(r: Record, snaplen: u32) {
    |r.data| <= snaplen
  }

  predicate FitsAll(rs: seq<Record>, snaplen: u32) {
    forall i :: 0 <= i < |rs| ==> Fits(rs[i], snaplen)
  }

  function EncodeAll(rs: seq<Record>): bytes {
    if rs == [] then [] else EncodeRecord(rs[0]) + EncodeAll(rs[1..])
  }

  /** The bytes records [0, n) of a file occupy, global header included. */
  function OffsetOf(rs: seq<Record>, n: nat): nat
    requires n <= |rs|
  {
    GLOBAL_HEADER_LEN + |EncodeAll(rs[..n])|
  }

  /** A file: some acceptable global header, then exactly the records rs. */
  predicate Holds(file: bytes, rs: seq<Record>) {
    HeaderOk(file) && file[GLOBAL_HEADER_LEN..] == EncodeAll(rs)
  }

  /** A file whose records start with rs, after 24 bytes no reader looks at; what follows is arbitrary. */
  predicate Carries(file: bytes, rs: seq<Record>) {
    |file| >= GLOBAL_HEADER_LEN && EncodeAll(rs) <= file[GLOBAL_HEADER_LEN..]
  }

  /** The capture length a record header declares. */
  function CapLen(hdr: bytes): u32
    requires |hdr| >= RECORD_HEADER_LEN
  {
    Get32LE(hdr[8..12])
  }

  /** The whole plausible record at the front of b, if there is one. */
  function FirstRecord(b: bytes, snaplen: u32): Option<Record> {
    if |b| < RECORD_HEADER_LEN then None
    else if CapLen(b) > snaplen || |b| < RECORD_HEADER_LEN + CapLen(b) then None
    else Some(Record(Get32LE(b[0..4]), Get32LE(b[4..8]), Get32LE(b[12..16]),
                     b[RECORD_HEADER_LEN..RECORD_HEADER_LEN + CapLen(b)]))
  }

  /** The records a forward scan of b accepts. */
  function Scan(b: bytes, snaplen: u32): seq<Record>
    decreases |b|
  {
    match FirstRecord(b, snaplen)
    case None => []
    case Some(r) => [r] + Scan(b[RECORD_HEADER_LEN + |r.data|..], snaplen)
  }

  // ---- the record codec ----

  lemma EncodedParses(b: bytes, snaplen: u32, r: Record)
    requires Fits(r, snaplen) && EncodeRecord(r) <= b
    ensures FirstRecord(b, snaplen) == Some(r)
  {
    hide LE, Get32LE;
    var e := EncodeRecord(r);
    assert b[0..4] == e[0..4] == LE(r.tsSec, 4);
    assert b[4..8] == e[4..8] == LE(r.tsUsec, 4);
    assert b[8..12] == e[8..12] == LE(|r.data|, 4);
    assert b[12..16] == e[12..16] == LE(r.origLen, 4);
    assert b[16..16 + |r.data|] == e[16..] == r.data;
    Get32LEOfLE(r.tsSec); Get32LEOfLE(r.tsUsec); Get32LEOfLE(|r.data|); Get32LEOfLE(r.origLen);
  }

  lemma ParsedEncodes(b: bytes, snaplen: u32, r: Record)
    requires FirstRecord(b, snaplen) == Some(r)
    ensures Fits(r, snaplen) && EncodeRecord(r) <= b
  {
    hide LE, Get32LE;
    var n := RECORD_HEADER_LEN + CapLen(b);
    LEOfGet32LE(b[0..4]); LEOfGet32LE(b[4..8]); LEOfGet32LE(b[8..12]); LEOfGet32LE(b[12..16]);
    assert |r.data| == CapLen(b);
    assert EncodeRecord(r) == b[0..4] + b[4..8] + b[8..12] + b[12..16] + b[16..n];
    assert b[..n] == b[0..4] + b[4..8] + b[8..12] + b[12..16] + b[16..n];
  }

  /** Parsing succeeds exactly on the encodings: both directions of the codec at once. */
  lemma FirstRecordIff(b: bytes, snaplen: u32, r: Record)
    ensures FirstRecord(b, snaplen) == Some(r) <==> Fits(r, snaplen) && EncodeRecord(r) <= b
  {
    hide *;
    if Fits(r, snaplen) && EncodeRecord(r) <= b {
      EncodedParses(b, snaplen, r);
    }
    if FirstRecord(b, snaplen) == Some(r) {
      ParsedEncodes(b, snaplen, r);
    }
  }

  /** No record's encoding is a proper prefix of another's. */
  lemma StrictPrefixHasNoRecord(p: bytes, r: Record, snaplen: u32)
    requires Fits(r, snaplen) && p < EncodeRecord(r)
    ensures FirstRecord(p, snaplen) == None
  {
    hide FirstRecord, EncodeRecord;
    var first := FirstRecord(p, snaplen);
    if first.Some? {
      FirstRecordIff(p, snaplen, first.value);
      FirstRecordIff(EncodeRecord(r), snaplen, first.value);
      FirstRecordIff(EncodeRecord(r), snaplen, r);
      assert false;
    }
  }

  lemma {:induction false} EncodeAllAppend(a: seq<Record>, b: seq<Record>)
    ensures EncodeAll(a + b) == EncodeAll(a) + EncodeAll(b)
  {
    hide EncodeRecord;
    if a == [] {
      assert a + b == b;
    } else {
      EncodeAllAppend(a[1..], b);
      assert (a + b)[1..] == a[1..] + b;
    }
  }

  lemma EncodeAllSnoc(a: seq<Record>, r: Record)
    ensures EncodeAll(a + [r]) == EncodeAll(a) + EncodeRecord(r)
  {
    hide EncodeRecord;
    EncodeAllAppend(a, [r]);
    assert EncodeAll([r]) == EncodeRecord(r);
  }

  lemma EncodeAllSplit(rs: seq<Record>, n: nat)
    requires n <= |rs|
    ensures EncodeAll(rs) == EncodeAll(rs[..n]) + EncodeAll(rs[n..])
  {
    hide *;
    EncodeAllAppend(rs[..n], rs[n..]);
    assert rs == rs[..n] + rs[n..];
  }

  /** Records serialised one after the other into one buffer. */
  method EncodeRecords(rs: seq<Record>) returns (buf: bytes)
    ensures buf == EncodeAll(rs)
  {
    hide EncodeRecord;
    buf := [];
    for i := 0 to |rs|
      invariant buf == EncodeAll(rs[..i])
    {
      EncodeAllSnoc(rs[..i], rs[i]);
      assert rs[..i + 1] == rs[..i] + [rs[i]];
      buf := buf + EncodeRecord(rs[i]);
    }
    assert rs[..|rs|] == rs;
  }

  lemma HoldsSnoc(file: bytes, rs: seq<Record>, r: Record)
    requires Holds(file, rs)
    ensures Holds(file + EncodeRecord(r), rs + [r])
  {
    hide EncodeRecord, EncodeAll;
    EncodeAllSnoc(rs, r);
    assert (file + EncodeRecord(r))[0..4] == file[0..4];
    assert (file + EncodeRecord(r))[GLOBAL_HEADER_LEN..] == file[GLOBAL_HEADER_LEN..] + EncodeRecord(r);
  }

  lemma HoldsNothing(gh: GlobalHeader)
    ensures Holds(EncodeGlobalHeader(gh), [])
  {
    hide EncodeGlobalHeader;
  }

  lemma HoldsCarries(file: bytes, rs: seq<Record>, n: nat)
    requires Holds(file, rs) && n <= |rs|
    ensures HeaderOk(file) && Carries(file, rs[..n])
    ensures |file| == GLOBAL_HEADER_LEN + |EncodeAll(rs)|
  {
    hide EncodeAll;
    EncodeAllSplit(rs, n);
  }

  lemma CarriesLess(file: bytes, rs: seq<Record>, n: nat)
    requires Carries(file, rs) && n <= |rs|
    ensures Carries(file, rs[..n])
  {
    hide EncodeAll;
    EncodeAllSplit(rs, n);
  }

  /** Keeping the first records' bytes keeps the records. */
  lemma CarriedBytes(file: bytes, rs: seq<Record>)
    requires Carries(file, rs)
    ensures var n := GLOBAL_HEADER_LEN + |EncodeAll(rs)|; n <= |file| && file[GLOBAL_HEADER_LEN..n] == EncodeAll(rs)
  {
    hide EncodeAll;
    var n := |EncodeAll(rs)|;
    assert file[GLOBAL_HEADER_LEN..] == file[GLOBAL_HEADER_LEN..|file|];
    FrontOfSlice(file, GLOBAL_HEADER_LEN, |file|, n);
  }

  lemma CarriesCut(file: bytes, rs: seq<Record>, data: bytes)
    requires HeaderOk(file) && Carries(file, rs)
    requires file[..GLOBAL_HEADER_LEN + |EncodeAll(rs)|] <= data
    ensures HeaderOk(data) && Carries(data, rs)
  {
    hide EncodeAll;
    var n := |EncodeAll(rs)|;
    assert data[0..4] == data[..GLOBAL_HEADER_LEN + n][0..4] == file[0..4];
    assert data[GLOBAL_HEADER_LEN..][..n] == data[..GLOBAL_HEADER_LEN + n][GLOBAL_HEADER_LEN..];
    assert file[GLOBAL_HEADER_LEN..][..n] == file[..GLOBAL_HEADER_LEN + n][GLOBAL_HEADER_LEN..];
  }

  // ---- the torn-tail scan ----

  /** What the scan accepts re-encodes to exactly the bytes accepted, and nothing parses after it. */
  lemma {:induction false} ScanSound(b: bytes, snaplen: u32)
    ensures FitsAll(Scan(b, snaplen), snaplen)
    ensures EncodeAll(Scan(b, snaplen)) <= b
    ensures FirstRecord(b[|EncodeAll(Scan(b, snaplen))|..], snaplen) == None
    decreases |b|
  {
    hide FirstRecord, EncodeRecord;
    var first := FirstRecord(b, snaplen);
    if first.None? {
      assert b[0..] == b;
    } else {
      var r := first.value;
      var n := RECORD_HEADER_LEN + |r.data|;
      FirstRecordIff(b, snaplen, r);
      ScanSound(b[n..], snaplen);
      var rest := Scan(b[n..], snaplen);
      assert Scan(b, snaplen)[1..] == rest;
      assert b == EncodeRecord(r) + b[n..];
      assert b[n..][|EncodeAll(rest)|..] == b[n + |EncodeAll(rest)|..];
    }
  }

  /** Scanning past any encoded records reaches exactly the scan of what follows them. */
  lemma {:induction false} ScanAppend(rs: seq<Record>, tail: bytes, snaplen: u32)
    requires FitsAll(rs, snaplen)
    ensures Scan(EncodeAll(rs) + tail, snaplen) == rs + Scan(tail, snaplen)
  {
    hide FirstRecord, EncodeRecord, Fits;
    if rs == [] {
      assert EncodeAll(rs) + tail == tail;
    } else {
      var b := EncodeAll(rs) + tail;
      assert Fits(rs[0], snaplen);
      assert b == EncodeRecord(rs[0]) + (EncodeAll(rs[1..]) + tail);
      FirstRecordIff(b, snaplen, rs[0]);
      assert b[RECORD_HEADER_LEN + |rs[0].data|..] == EncodeAll(rs[1..]) + tail;
      ScanAppend(rs[1..], tail, snaplen);
    }
  }

  lemma ScanEncodeAll(rs: seq<Record>, snaplen: u32)
    requires FitsAll(rs, snaplen)
    ensures Scan(EncodeAll(rs), snaplen) == rs
  {
    ScanAppend(rs, [], snaplen);
    assert EncodeAll(rs) + [] == EncodeAll(rs);
  }

  /** The scan is the longest list of plausible records that b starts with. */
  lemma ScanIsMaximal(b: bytes, rs: seq<Record>, snaplen: u32)
    requires FitsAll(rs, snaplen)
    ensures EncodeAll(rs) <= b <==> rs <= Scan(b, snaplen)
  {
    hide *;
    if EncodeAll(rs) <= b {
      ScanAppend(rs, b[|EncodeAll(rs)|..], snaplen);
      assert b == EncodeAll(rs) + b[|EncodeAll(rs)|..];
    }
    if rs <= Scan(b, snaplen) {
      ScanSound(b, snaplen);
      EncodeAllSplit(Scan(b, snaplen), |rs|);
      assert Scan(b, snaplen)[..|rs|] == rs;
    }
  }

  /** Truncating to the accepted bytes and scanning again finds the same records and no residue. */
  lemma ScanIdempotent(b: bytes, snaplen: u32)
    ensures Scan(EncodeAll(Scan(b, snaplen)), snaplen) == Scan(b, snaplen)
  {
    ScanSound(b, snaplen);
    ScanEncodeAll(Scan(b, snaplen), snaplen);
  }

  /** Records followed by a torn record scan to exactly the records. */
  lemma ScanTornTail(rs: seq<Record>, r: Record, torn: bytes, snaplen: u32)
    requires FitsAll(rs, snaplen) && Fits(r, snaplen) && torn < EncodeRecord(r)
    ensures Scan(EncodeAll(rs) + torn, snaplen) == rs
  {
    StrictPrefixHasNoRecord(torn, r, snaplen);
    ScanAppend(rs, torn, snaplen);
  }

  /** Cutting a file of records anywhere leaves a prefix of its records. */
  lemma ScanOfPrefix(p: bytes, rs: seq<Record>, snaplen: u32)
    requires FitsAll(rs, snaplen) && p <= EncodeAll(rs)
    ensures Scan(p, snaplen) <= rs
  {
    var got := Scan(p, snaplen);
    ScanSound(p, snaplen);
    ScanIsMaximal(EncodeAll(rs), got, snaplen);
    ScanEncodeAll(rs, snaplen);
  }

  /** The encoding of fitting records determines them. */
  lemma EncodeAllInjective(a: seq<Record>, b: seq<Record>, snaplen: u32)
    requires FitsAll(a, snaplen) && FitsAll(b, snaplen) && EncodeAll(a) == EncodeAll(b)
    ensures a == b
  {
    ScanEncodeAll(a, snaplen);
    ScanEncodeAll(b, snaplen);
  }

  // ---- the four walkers ----

  lemma ScanEdges(b: bytes, snaplen: u32)
    ensures EncodeAll([]) == []
    ensures FirstRecord(b, snaplen) == None ==> Scan(b, snaplen) == []
  {
    hide FirstRecord;
  }

  lemma ScanStep(b: bytes, snaplen: u32, at: nat, recs: seq<Record>, r: Record)
    requires at <= |b| && b[..at] == EncodeAll(recs)
    requires FirstRecord(b[at..], snaplen) == Some(r)
    ensures at + RECORD_HEADER_LEN + |r.data| <= |b|
    ensures b[..at + RECORD_HEADER_LEN + |r.data|] == EncodeAll(recs + [r])
    ensures Scan(b[at..], snaplen) == [r] + Scan(b[at + RECORD_HEADER_LEN + |r.data|..], snaplen)
  {
    hide FirstRecord, EncodeRecord, EncodeAll;
    var rest, n := b[at..], RECORD_HEADER_LEN + |r.data|;
    FirstRecordIff(rest, snaplen, r);
    EncodeAllSnoc(recs, r);
    assert rest[..n] == EncodeRecord(r);
    assert b[..at + n] == b[..at] + rest[..n];
    assert rest[n..] == b[at + n..];
  }

  /** ScanRecords over the bytes past the global header: a loop over a consumed reader. */
  method ScanRecords(b: bytes, snaplen: u32) returns (validBytes: nat, recs: seq<Record>)
    ensures recs == Scan(b, snaplen)
    ensures validBytes <= |b| && b[..validBytes] == EncodeAll(recs)
  {
    hide EncodeRecord, EncodeAll, Get32LE, Scan;
    validBytes, recs := 0, [];
    assert b[0..] == b;
    ScanEdges(b, snaplen);
    while true
      invariant validBytes <= |b| && b[..validBytes] == EncodeAll(recs)
      invariant Scan(b, snaplen) == recs + Scan(b[validBytes..], snaplen)
      decreases |b| - validBytes
    {
      var rest := b[validBytes..];
      ScanEdges(rest, snaplen);
      if |rest| < RECORD_HEADER_LEN {
        return;
      }
      var capLen := CapLen(rest);
      if capLen > snaplen || |rest| < RECORD_HEADER_LEN + capLen {
        return;
      }
      var r := Record(Get32LE(rest[0..4]), Get32LE(rest[4..8]), Get32LE(rest[12..16]),
                      rest[RECORD_HEADER_LEN..RECORD_HEADER_LEN + capLen]);
      ScanStep(b, snaplen, validBytes, recs, r);
      recs := recs + [r];
      validBytes := validBytes + RECORD_HEADER_LEN + capLen;
    }
  }

  datatype ReadResult = Read(rec: Record, next: nat) | NotYet | BadRecord | ReadError

  /** ReadRecordAt: one whole record at off, never touching bytes at or past limit. */
  function ReadRecordAt(file: bytes, off: nat, limit: nat, snaplen: u32): ReadResult {
    if off + RECORD_HEADER_LEN > limit then NotYet
    else if off + RECORD_HEADER_LEN > |file| then ReadError
    else
      var hdr := file[off..off + RECORD_HEADER_LEN];
      var end := off + RECORD_HEADER_LEN + CapLen(hdr);
      if CapLen(hdr) > snaplen then BadRecord
      else if end > limit then NotYet
      else if end > |file| then ReadError
      else Read(Record(Get32LE(hdr[0..4]), Get32LE(hdr[4..8]), Get32LE(hdr[12..16]),
                       file[off + RECORD_HEADER_LEN..end]), end)
  }

  /**
   On any file: a record is read exactly when it fits the snaplen and its whole encoding
   lies in the file from off on, within the limit.
   */
  lemma ReadRecordAtIff(file: bytes, off: nat, limit: nat, snaplen: u32, r: Record, next: nat)
    ensures ReadRecordAt(file, off, limit, snaplen) == Read(r, next) <==>
              && Fits(r, snaplen) && off <= |file| && EncodeRecord(r) <= file[off..]
              && next == off + |EncodeRecord(r)| <= limit
  {
    hide EncodeRecord, Fits, Get32LE;
    if off + RECORD_HEADER_LEN <= |file| {
      var b, hdr := file[off..], file[off..off + RECORD_HEADER_LEN];
      assert hdr == b[..RECORD_HEADER_LEN];
      SliceOfPrefix(b, RECORD_HEADER_LEN, 0, 4);
      SliceOfPrefix(b, RECORD_HEADER_LEN, 4, 8);
      SliceOfPrefix(b, RECORD_HEADER_LEN, 8, 12);
      SliceOfPrefix(b, RECORD_HEADER_LEN, 12, 16);
      var n := RECORD_HEADER_LEN + CapLen(b);
      if n <= |b| {
        assert file[off + RECORD_HEADER_LEN..off + n] == b[RECORD_HEADER_LEN..n];
      }
      FirstRecordIff(b, snaplen, r);
    }
  }

  /** What lies at or past the limit makes no difference. */
  lemma ReadsWithinLimit(file: bytes, other: bytes, off: nat, limit: nat, snaplen: u32)
    requires limit <= |file| && limit <= |other| && file[..limit] == other[..limit]
    ensures ReadRecordAt(file, off, limit, snaplen) == ReadRecordAt(other, off, limit, snaplen)
  {
    hide CapLen, Get32LE;
    if off + RECORD_HEADER_LEN <= limit {
      var hdr := file[off..off + RECORD_HEADER_LEN];
      SliceOfPrefix(file, limit, off, off + RECORD_HEADER_LEN);
      SliceOfPrefix(other, limit, off, off + RECORD_HEADER_LEN);
      var end := off + RECORD_HEADER_LEN + CapLen(hdr);
      if end <= limit {
        SliceOfPrefix(file, limit, off + RECORD_HEADER_LEN, end);
        SliceOfPrefix(other, limit, off + RECORD_HEADER_LEN, end);
      }
    }
  }

  /** At the offset of record n, ReadRecordAt returns record n and the offset of record n + 1. */
  lemma ReadRecordAtOffset(file: bytes, rs: seq<Record>, n: nat, limit: nat, snaplen: u32)
    requires Carries(file, rs) && FitsAll(rs, snaplen)
    requires n <= |rs| && limit == OffsetOf(rs, |rs|)
    ensures OffsetOf(rs, n) <= limit <= |file|
    ensures ReadRecordAt(file, OffsetOf(rs, n), limit, snaplen)
         == if n < |rs| then Read(rs[n], OffsetOf(rs, n + 1)) else NotYet
  {
    hide FirstRecord, EncodeRecord, EncodeAll;
    assert rs[..|rs|] == rs;
    EncodeAllSplit(rs, n);
    if n < |rs| {
      var off := OffsetOf(rs, n);
      EncodedAt(file, rs, n);
      assert Fits(rs[n], snaplen);
      FirstRecordIff(file[off..], snaplen, rs[n]);
      ReadIsFirstRecord(file, off, limit, snaplen, rs[n]);
    }
  }

  /** Record n's bytes sit between the offsets of records n and n + 1. */
  lemma EncodedAt(file: bytes, rs: seq<Record>, n: nat)
    requires Carries(file, rs) && n < |rs|
    ensures OffsetOf(rs, n + 1) == OffsetOf(rs, n) + |EncodeRecord(rs[n])|
    ensures OffsetOf(rs, n + 1) <= OffsetOf(rs, |rs|) <= |file|
    ensures EncodeRecord(rs[n]) <= file[OffsetOf(rs, n)..]
  {
    hide EncodeRecord, EncodeAll;
    EncodeAllSnoc(rs[..n], rs[n]);
    assert rs[..n + 1] == rs[..n] + [rs[n]];
    EncodeAllSplit(rs, n + 1);
    assert rs[..|rs|] == rs;
    var pre, e, post := EncodeAll(rs[..n]), EncodeRecord(rs[n]), EncodeAll(rs[n + 1..]);
    var body := file[GLOBAL_HEADER_LEN..];
    assert EncodeAll(rs) == pre + e + post;
    assert body == pre + e + (post + body[|EncodeAll(rs)|..]);
    assert file[OffsetOf(rs, n)..] == body[|pre|..] == e + (post + body[|EncodeAll(rs)|..]);
  }

  lemma ReadIsFirstRecord(file: bytes, off: nat, limit: nat, snaplen: u32, r: Record)
    requires off <= |file| && FirstRecord(file[off..], snaplen) == Some(r)
    requires off + RECORD_HEADER_LEN + |r.data| <= limit
    ensures ReadRecordAt(file, off, limit, snaplen) == Read(r, off + RECORD_HEADER_LEN + |r.data|)
  {
    hide Get32LE;
    var rest, hdr := file[off..], file[off..off + RECORD_HEADER_LEN];
    Window(file, off, RECORD_HEADER_LEN, 0, 4);
    Window(file, off, RECORD_HEADER_LEN, 4, 8);
    Window(file, off, RECORD_HEADER_LEN, 8, 12);
    Window(file, off, RECORD_HEADER_LEN, 12, 16);
    assert rest[RECORD_HEADER_LEN..RECORD_HEADER_LEN + |r.data|]
        == file[off + RECORD_HEADER_LEN..off + RECORD_HEADER_LEN + |r.data|];
  }

  /** The header at the offset of record n declares record n's length. */
  lemma CapLenAtOffset(file: bytes, rs: seq<Record>, n: nat, snaplen: u32)
    requires Carries(file, rs) && FitsAll(rs, snaplen) && n < |rs|
    ensures OffsetOf(rs, n) + RECORD_HEADER_LEN <= |file|
    ensures CapLen(file[OffsetOf(rs, n)..OffsetOf(rs, n) + RECORD_HEADER_LEN]) == |rs[n].data|
    ensures OffsetOf(rs, n + 1) == OffsetOf(rs, n) + RECORD_HEADER_LEN + |rs[n].data|
  {
    hide FirstRecord, EncodeRecord, EncodeAll, CapLen;
    ReadRecordAtOffset(file, rs, n, OffsetOf(rs, |rs|), snaplen);
    EncodedAt(file, rs, n);
  }

  lemma FitsMore(rs: seq<Record>, small: u32, large: u32)
    requires FitsAll(rs, small) && small <= large
    ensures FitsAll(rs, large)
  {
  }

  /** Any record a 32-bit capture length can describe. */
  const ENCODABLE: u32 := 0xFFFF_FFFF

  /**
   What a reader with any snaplen gets at the offset of record n: the record if it fits,
   an error if not, nothing at the end.
   */
  lemma ReadsFitting(file: bytes, rs: seq<Record>, n: nat, limit: nat, snaplen: u32)
    requires rs != [] ==> Carries(file, rs)
    requires FitsAll(rs, ENCODABLE) && n <= |rs| && limit == OffsetOf(rs, |rs|)
    ensures ReadRecordAt(file, OffsetOf(rs, n), limit, snaplen)
         == if n == |rs| then NotYet else if Fits(rs[n], snaplen) then Read(rs[n], OffsetOf(rs, n + 1)) else BadRecord
  {
    hide EncodeAll, FitsAll, Carries;
    if rs != [] {
      ReadRecordAtOffset(file, rs, n, limit, ENCODABLE);
    }
  }

  /** Where n record headers, each trusted for its length alone, lead; None past the end of the file. */
  function WalkTo(file: bytes, n: nat): Option<nat> {
    if n == 0 then Some(GLOBAL_HEADER_LEN)
    else match WalkTo(file, n - 1)
      case None => None
      case Some(off) =>
        if off + RECORD_HEADER_LEN > |file| then None
        else Some(off + RECORD_HEADER_LEN + CapLen(file[off..off + RECORD_HEADER_LEN]))
  }

  /** In a file of records the n-th header is where the n-th record is. */
  lemma {:induction false} WalkToFinds(file: bytes, rs: seq<Record>, n: nat)
    requires Carries(file, rs) && FitsAll(rs, ENCODABLE) && n <= |rs|
    ensures WalkTo(file, n) == Some(OffsetOf(rs, n))
  {
    hide EncodeAll, FitsAll, Carries, CapLen;
    if n == 0 {
      assert rs[..0] == [] && EncodeAll([]) == [] by { EncodeNothing(); }
    } else {
      WalkToFinds(file, rs, n - 1);
      CapLenAtOffset(file, rs, n - 1, ENCODABLE);
    }
  }

  lemma EncodeNothing()
    ensures EncodeAll([]) == []
  {
  }

  /** Reader.position's skip loop: the byte offset the headers lead to, or a read error. */
  method SkipTo(file: bytes, skip: nat) returns (ok: bool, offset: nat)
    ensures WalkTo(file, skip) == if ok then Some(offset) else None
  {
    hide CapLen;
    offset := GLOBAL_HEADER_LEN;
    var n := 0;
    while n < skip
      invariant n <= skip && WalkTo(file, n) == Some(offset)
    {
      if offset + RECORD_HEADER_LEN > |file| {
        WalkFails(file, n + 1, skip);
        return false, offset;
      }
      offset := offset + RECORD_HEADER_LEN + CapLen(file[offset..offset + RECORD_HEADER_LEN]);
      n := n + 1;
    }
    ok := true;
  }

  lemma {:induction false} WalkFails(file: bytes, n: nat, m: nat)
    requires WalkTo(file, n) == None && n <= m
    ensures WalkTo(file, m) == None
  {
    if n < m {
      WalkFails(file, n, m - 1);
    }
  }

  /** A whole, plausible record header whose body is cut short. */
  predicate TornBody(residue: bytes, snaplen: u32) {
    && |residue| >= RECORD_HEADER_LEN
    && CapLen(residue) <= snaplen
    && |residue| < RECORD_HEADER_LEN + CapLen(residue)
  }

  /** The bytes a scan of the file leaves over. */
  function Residue(file: bytes, snaplen: u32): bytes
    requires |file| >= GLOBAL_HEADER_LEN
  {
    ScanSound(file[GLOBAL_HEADER_LEN..], snaplen);
    file[GLOBAL_HEADER_LEN..][|EncodeAll(Scan(file[GLOBAL_HEADER_LEN..], snaplen))|..]
  }

  datatype Walk = Walk(offset: nat, have: nat)

  /**
   Where recordOffsetForCount stops. It reads headers only, so past the records the
   scanner accepts it also counts one whose body is torn, and points past the end.
   */
  function HeaderWalk(file: bytes, snaplen: u32, want: nat): Walk
    requires |file| >= GLOBAL_HEADER_LEN
  {
    var rs := Scan(file[GLOBAL_HEADER_LEN..], snaplen);
    var residue := Residue(file, snaplen);
    if want <= |rs| then Walk(OffsetOf(rs, want), want)
    else if TornBody(residue, snaplen) then Walk(OffsetOf(rs, |rs|) + RECORD_HEADER_LEN + CapLen(residue), |rs| + 1)
    else Walk(OffsetOf(rs, |rs|), |rs|)
  }

  /** The header walk agrees with the scanner's count, capped at want, except on a torn body. */
  lemma WalkersAgreeIff(file: bytes, snaplen: u32, want: nat)
    requires |file| >= GLOBAL_HEADER_LEN
    ensures var count := |Scan(file[GLOBAL_HEADER_LEN..], snaplen)|;
            HeaderWalk(file, snaplen, want).have == (if want < count then want else count)
            <==> want <= count || !TornBody(Residue(file, snaplen), snaplen)
  {
    hide Scan, EncodeAll, CapLen, Residue;
  }

  method RecordOffsetForCount(file: bytes, snaplen: u32, want: nat) returns (offset: nat, have: nat)
    requires |file| >= GLOBAL_HEADER_LEN
    ensures Walk(offset, have) == HeaderWalk(file, snaplen, want)
  {
    hide EncodeRecord, Get32LE, Scan;
    ghost var body := file[GLOBAL_HEADER_LEN..];
    ghost var rs := Scan(body, snaplen);
    ScanSound(body, snaplen);
    offset, have := GLOBAL_HEADER_LEN, 0;
    while have < want
      invariant have <= want
      invariant have <= |rs| ==> offset == OffsetOf(rs, have)
      invariant have > |rs| ==> Walk(offset, have) == HeaderWalk(file, snaplen, want) && offset > |file|
    {
      if have < |rs| {
        CapLenAtOffset(file, rs, have, snaplen);
      } else if have == |rs| {
        assert rs[..|rs|] == rs;
        assert file[offset..] == Residue(file, snaplen);
      }
      if offset + RECORD_HEADER_LEN > |file| {
        return;
      }
      var capLen := CapLen(file[offset..offset + RECORD_HEADER_LEN]);
      if have == |rs| {
        Window(file, offset, RECORD_HEADER_LEN, 8, 12);
      }
      if capLen > snaplen {
        return;
      }
      offset := offset + RECORD_HEADER_LEN + capLen;
      have := have + 1;
    }
  }

  /** A committed prefix is found at its exact end, whatever follows it. */
  lemma WalkFinds(file: bytes, rs: seq<Record>, snaplen: u32)
    requires Carries(file, rs) && FitsAll(rs, snaplen)
    ensures HeaderWalk(file, snaplen, |rs|) == Walk(GLOBAL_HEADER_LEN + |EncodeAll(rs)|, |rs|)
  {
    hide EncodeAll, Scan, CapLen, TornBody, Residue;
    ScanIsMaximal(file[GLOBAL_HEADER_LEN..], rs, snaplen);
    assert Scan(file[GLOBAL_HEADER_LEN..], snaplen)[..|rs|] == rs;
  }

  /** A scan whose snaplen is smaller than some record stops at the first such record, and so does the walk. */
  lemma StopsAtOversize(file: bytes, rs: seq<Record>, i: nat, snaplen: u32, full: u32)
    requires Carries(file, rs) && FitsAll(rs, full) && i < |rs|
    requires FitsAll(rs[..i], snaplen) && !Fits(rs[i], snaplen)
    ensures Scan(file[GLOBAL_HEADER_LEN..], snaplen) == rs[..i]
    ensures HeaderWalk(file, snaplen, |rs|) == Walk(OffsetOf(rs, i), i)
  {
    hide EncodeAll, Scan, FirstRecord, EncodeRecord, CapLen, Get32LE, FitsAll;
    EncodedAt(file, rs, i);
    CapLenAtOffset(file, rs, i, full);
    var off := OffsetOf(rs, i);
    var body, pre, tail := file[GLOBAL_HEADER_LEN..], EncodeAll(rs[..i]), file[OffsetOf(rs, i)..];
    CarriesLess(file, rs, i);
    assert body == pre + tail;
    CapLenOfWindow(file, off);
    OversizeHasNoRecord(tail, snaplen);
    ScanAppend(rs[..i], tail, snaplen);
    ScanEdges(tail, snaplen);
    assert rs[..i] + [] == rs[..i] && rs[..i][..i] == rs[..i];
  }

  lemma FirstMisfit(rs: seq<Record>, snaplen: u32) returns (i: nat)
    requires !FitsAll(rs, snaplen)
    ensures i < |rs| && FitsAll(rs[..i], snaplen) && !Fits(rs[i], snaplen)
  {
    i := 0;
    while Fits(rs[i], snaplen)
      invariant i < |rs| && FitsAll(rs[..i], snaplen)
      decreases |rs| - i
    {
      i := i + 1;
    }
  }

  /** The walk's miscount at its simplest: one record cut in its body is counted, and the scanner finds none. */
  lemma TornBodyCounted(gh: GlobalHeader, r: Record)
    requires r.data != [] && Fits(r, gh.snaplen)
    ensures var e := EncodeRecord(r);
            var file := EncodeGlobalHeader(gh) + e[..|e| - 1];
            && Scan(file[GLOBAL_HEADER_LEN..], gh.snaplen) == []
            && HeaderWalk(file, gh.snaplen, 1) == Walk(|file| + 1, 1)
  {
    hide EncodeGlobalHeader, EncodeRecord, Scan, CapLen;
    var e := EncodeRecord(r);
    var torn := e[..|e| - 1];
    var file := EncodeGlobalHeader(gh) + torn;
    assert file[GLOBAL_HEADER_LEN..] == torn;
    ScanTornTail([], r, torn, gh.snaplen);
    assert EncodeAll([]) + torn == torn;
    TornCapLen(r);
  }

  lemma TornCapLen(r: Record)
    requires 0 < |r.data| < TWO32
    ensures var e := EncodeRecord(r);
            |e| == RECORD_HEADER_LEN + |r.data| && CapLen(e[..|e| - 1]) == |r.data|
  {
    hide LE, Get32LE;
    var e := EncodeRecord(r);
    assert e[..|e| - 1][8..12] == LE(|r.data|, 4);
    Get32LEOfLE(|r.data|);
  }

  lemma CapLenOfWindow(file: bytes, off: nat)
    requires off + RECORD_HEADER_LEN <= |file|
    ensures CapLen(file[off..off + RECORD_HEADER_LEN]) == CapLen(file[off..])
  {
    Window(file, off, RECORD_HEADER_LEN, 8, 12);
  }

  lemma OversizeHasNoRecord(b: bytes, snaplen: u32)
    requires |b| >= RECORD_HEADER_LEN && CapLen(b) > snaplen
    ensures FirstRecord(b, snaplen) == None && !TornBody(b, snaplen)
  {
  }
}
