/** PKT_BATCH payloads and the record conversions at both ends of the link. */
module Wire {
  import opened Bytes
  import opened Pcap

  const MAX_PAYLOAD_LEN := 0x80_0000  // 8 MiB
  const PKT_FIXED_LEN := 20

  /** One packet on the wire. The declared capture length is a field of its own. */
  datatype PktRecord = PktRecord(tsSec: u64, tsNsec: u32, origLen: u32, capLen: u32, data: bytes)

  datatype Parsed<+T> = Good(value: T) | Truncated

  function EncodePkt(p: PktRecord): (b: bytes)
    ensures |b| == PKT_FIXED_LEN + |p.data|
  {
    BE(p.tsSec, 8) + BE(p.tsNsec, 4) + BE(p.origLen, 4) + BE(p.capLen, 4) + p.data
  }

  /** The packet at the front of b; refused if cut short or implausibly long. */
  function ParsePkt(b: bytes): (r: Parsed<PktRecord>)
    ensures r.Good? ==> PKT_FIXED_LEN + |r.value.data| <= |b| && Intact(r.value)
  {
    if |b| < PKT_FIXED_LEN then Truncated
    else
      var capLen := Get32BE(b[16..20]);
      if capLen > MAX_PAYLOAD_LEN || |b| < PKT_FIXED_LEN + capLen then Truncated
      else Good(PktRecord(Get64BE(b[0..8]), Get32BE(b[8..12]), Get32BE(b[12..16]), capLen, b[20..20 + capLen]))
  }

  predicate Intact(p: PktRecord) {
    p.capLen == |p.data| <= MAX_PAYLOAD_LEN
  }

  predicate AllIntact(ps: seq<PktRecord>) {
    forall i :: 0 <= i < |ps| ==> Intact(ps[i])
  }

  function EncodePkts(ps: seq<PktRecord>): bytes {
    if ps == [] then [] else EncodePkt(ps[0]) + EncodePkts(ps[1..])
  }

  /** The first n packets of b, and nothing if any of them is missing. */
  function ParsePkts(b: bytes, n: nat): Parsed<seq<PktRecord>> {
    if n == 0 then Good([])
    else match ParsePkt(b)
      case Truncated => Truncated
      case Good(p) => After([p], ParsePkts(b[PKT_FIXED_LEN + |p.data|..], n - 1))
  }

  function After(front: seq<PktRecord>, r: Parsed<seq<PktRecord>>): Parsed<seq<PktRecord>> {
    match r
    case Truncated => Truncated
    case Good(rest) => Good(front + rest)
  }

  lemma AfterAfter(front: seq<PktRecord>, p: PktRecord, r: Parsed<seq<PktRecord>>)
    ensures After(front, After([p], r)) == After(front + [p], r) && After([], r) == r
  {
    if r.Good? {
      assert front + ([p] + r.value) == front + [p] + r.value;
      assert [] + r.value == r.value;
    }
  }

  /** The count is a u16: it wraps at 65536. */
  function EncodeBatch(ps: seq<PktRecord>): bytes {
    BE(|ps| % TWO16, 2) + EncodePkts(ps)
  }

  function DecodeBatch(payload: bytes): Parsed<seq<PktRecord>> {
    if |payload| < 2 then Truncated else ParsePkts(payload[2..], Get16BE(payload[0..2]))
  }

  lemma ParseEncoded(p: PktRecord, rest: bytes)
    requires Intact(p)
    ensures ParsePkt(EncodePkt(p) + rest) == Good(p)
  {
    hide BE, Get32BE, Get64BE;
    var b := EncodePkt(p) + rest;
    assert b[0..8] == BE(p.tsSec, 8);
    assert b[8..12] == BE(p.tsNsec, 4);
    assert b[12..16] == BE(p.origLen, 4);
    assert b[16..20] == BE(p.capLen, 4);
    assert b[20..20 + |p.data|] == p.data;
    GetBEOfBE(0, p.tsNsec, p.tsSec);
    GetBEOfBE(0, p.origLen, 0);
    GetBEOfBE(0, p.capLen, 0);
  }

  /** Parsing n packets of an encoded list gives back its first n, whatever follows. */
  lemma {:induction false} ParseEncodedPkts(ps: seq<PktRecord>, n: nat, rest: bytes)
    requires AllIntact(ps) && n <= |ps|
    ensures ParsePkts(EncodePkts(ps) + rest, n) == Good(ps[..n])
  {
    hide EncodePkt, ParsePkt;
    if n > 0 {
      var b, tail := EncodePkts(ps) + rest, EncodePkts(ps[1..]) + rest;
      assert b == EncodePkt(ps[0]) + tail;
      assert Intact(ps[0]);
      ParseEncoded(ps[0], tail);
      assert b[PKT_FIXED_LEN + |ps[0].data|..] == tail;
      ParseEncodedPkts(ps[1..], n - 1, rest);
      assert ps[..n] == [ps[0]] + ps[1..][..n - 1];
    }
  }

  /** A batch survives the link exactly when its count fits the u16. */
  lemma BatchRoundTrip(ps: seq<PktRecord>)
    requires AllIntact(ps)
    ensures DecodeBatch(EncodeBatch(ps)) == Good(ps[..|ps| % TWO16])
    ensures DecodeBatch(EncodeBatch(ps)) == Good(ps) <==> |ps| < TWO16
  {
    hide EncodePkts, ParsePkts, BE, Get16BE, AllIntact;
    var b, n := EncodeBatch(ps), |ps| % TWO16;
    assert b[0..2] == BE(n, 2);
    assert b[2..] == EncodePkts(ps) + [];
    GetBEOfBE(n, 0, 0);
    ParseEncodedPkts(ps, n, []);
    if |ps| < TWO16 {
      assert ps[..n] == ps;
    } else {
      assert |ps[..n]| < |ps|;
    }
  }

  /** The batch layout: the count, then the packets back to back. */
  lemma BatchBytes(ps: seq<PktRecord>, p: PktRecord)
    ensures EncodeBatch([]) == [0, 0]
    ensures EncodeBatch(ps)[..2] == BE(|ps| % TWO16, 2)
    ensures EncodeBatch(ps + [p])[2..] == EncodeBatch(ps)[2..] + EncodePkt(p)
  {
    hide EncodePkt, BE;
    EncodePktsSnoc(ps, p);
    BEBytes(0);
  }

  /** Decoding a payload gives ps exactly when it begins with their count and their encodings, all intact. */
  lemma DecodeBatchIff(payload: bytes, ps: seq<PktRecord>)
    ensures DecodeBatch(payload) == Good(ps) <==>
              |payload| >= 2 && payload[..2] == BE(|ps|, 2) && |ps| < TWO16 && AllIntact(ps)
                && EncodePkts(ps) <= payload[2..]
  {
    hide EncodePkts, ParsePkts, BE, Get16BE, AllIntact;
    if |payload| >= 2 {
      assert payload[0..2] == payload[..2];
      BEOfGet16BE(payload[0..2]);
      ParsePktsIff(payload[2..], Get16BE(payload[0..2]), ps);
      if |ps| < TWO16 {
        GetBEOfBE(|ps|, 0, 0);
      }
    }
  }

  lemma {:induction false} ParsePktsIff(b: bytes, n: nat, ps: seq<PktRecord>)
    ensures ParsePkts(b, n) == Good(ps) <==> |ps| == n && AllIntact(ps) && EncodePkts(ps) <= b
    decreases n
  {
    hide ParsePkt, EncodePkt;
    if |ps| == n && AllIntact(ps) && EncodePkts(ps) <= b {
      assert b == EncodePkts(ps) + b[|EncodePkts(ps)|..] && ps[..n] == ps;
      ParseEncodedPkts(ps, n, b[|EncodePkts(ps)|..]);
    }
    if ParsePkts(b, n) == Good(ps) && n > 0 {
      var p := ParsePkt(b).value;
      var rest := b[PKT_FIXED_LEN + |p.data|..];
      var qs := ParsePkts(rest, n - 1).value;
      ParsePktIff(b, p);
      ParsePktsIff(rest, n - 1, qs);
      assert ps == [p] + qs && ps[1..] == qs;
      assert b == EncodePkt(p) + rest;
    }
  }

  /** EncodePktBatch's loop. */
  method EncodePktBatch(ps: seq<PktRecord>) returns (out: bytes)
    ensures out == EncodeBatch(ps)
  {
    hide EncodePkt, BE;
    out := BE(|ps| % TWO16, 2);
    ghost var count := out;
    for i := 0 to |ps|
      invariant out == count + EncodePkts(ps[..i])
    {
      EncodePktsSnoc(ps[..i], ps[i]);
      assert ps[..i + 1] == ps[..i] + [ps[i]];
      out := out + EncodePkt(ps[i]);
    }
    assert ps[..|ps|] == ps;
  }

  lemma {:induction false} EncodePktsSnoc(ps: seq<PktRecord>, p: PktRecord)
    ensures EncodePkts(ps + [p]) == EncodePkts(ps) + EncodePkt(p)
  {
    hide EncodePkt;
    if ps == [] {
      assert ps + [p] == [p] && [p][1..] == [];
    } else {
      EncodePktsSnoc(ps[1..], p);
      assert (ps + [p])[1..] == ps[1..] + [p];
    }
  }

  /** DecodePktBatch's loop: consume the payload packet by packet. */
  method DecodePktBatch(payload: bytes) returns (r: Parsed<seq<PktRecord>>)
    ensures r == DecodeBatch(payload)
  {
    hide ParsePkt, Get16BE;
    if |payload| < 2 {
      return Truncated;
    }
    var count := Get16BE(payload[0..2]);
    var b, recs: seq<PktRecord> := payload[2..], [];
    var i := 0;
    AfterAfter([], PktRecord(0, 0, 0, 0, []), ParsePkts(b, count));
    while i < count
      invariant 0 <= i <= count
      invariant DecodeBatch(payload) == After(recs, ParsePkts(b, count - i))
    {
      var p := ParsePkt(b);
      if p.Truncated? {
        return Truncated;
      }
      AfterAfter(recs, p.value, ParsePkts(b[PKT_FIXED_LEN + |p.value.data|..], count - i - 1));
      recs := recs + [p.value];
      b := b[PKT_FIXED_LEN + |p.value.data|..];
      i := i + 1;
    }
    assert recs + [] == recs;
    r := Good(recs);
  }

  // ---- pcap record <-> wire record ----

  /** The packet layout: seconds, nanoseconds, original and captured length, high byte first, then the data. */
  lemma PktBytes(p: PktRecord)
    ensures var b := EncodePkt(p);
            && b[0..8] == BE(p.tsSec, 8) && b[8..12] == BE(p.tsNsec, 4) && b[12..16] == BE(p.origLen, 4)
            && b[16..20] == BE(p.capLen, 4) && b[20..] == p.data
  {
    hide BE;
  }

  /** Parsing the front of any bytes gives p exactly when they begin with p, intact and encoded. */
  lemma ParsePktIff(b: bytes, p: PktRecord)
    ensures ParsePkt(b) == Good(p) <==> Intact(p) && EncodePkt(p) <= b
  {
    if Intact(p) && EncodePkt(p) <= b {
      ParseEncoded(p, b[|EncodePkt(p)|..]);
      assert b == EncodePkt(p) + b[|EncodePkt(p)|..];
    }
    if ParsePkt(b) == Good(p) {
      ParsedPkt(b, p);
    }
  }

  lemma ParsedPkt(b: bytes, p: PktRecord)
    requires ParsePkt(b) == Good(p)
    ensures Intact(p) && EncodePkt(p) <= b
  {
    hide BE, Get32BE, Get64BE;
    BEOfGet64BE(b[0..8]);
    BEOfGet32BE(b[8..12]);
    BEOfGet32BE(b[12..16]);
    BEOfGet32BE(b[16..20]);
    var n := 20 + |p.data|;
    assert EncodePkt(p) == b[0..8] + b[8..12] + b[12..16] + b[16..20] + b[20..n];
    assert b[..n] == b[0..8] + b[8..12] + b[12..16] + b[16..20] + b[20..n];
  }

  /** pcapToProto: the microseconds are scaled in 32-bit arithmetic. */
  function ToWire(r: Record): PktRecord {
    PktRecord(r.tsSec, r.tsUsec * 1000 % TWO32, r.origLen, |r.data| % TWO32, r.data)
  }

  /** protoToPcap: the seconds are cut to 32 bits. */
  function FromWire(p: PktRecord): Record {
    Record(p.tsSec % TWO32, p.tsNsec / 1000, p.origLen, p.data)
  }

  /** What the link makes of a record. */
  function OverLink(r: Record): Record { FromWire(ToWire(r)) }

  /** The link keeps a record exactly when scaling its microseconds does not wrap; it always keeps the rest. */
  lemma ConversionIff(r: Record)
    ensures OverLink(r) == r <==> r.tsUsec <= 4294967
    ensures OverLink(r).(tsUsec := r.tsUsec) == r
  {
  }

  /** What a record looks like on the wire, field by field. */
  lemma WireBytes(r: Record)
    ensures var b := EncodePkt(ToWire(r));
            && b[0..8] == BE(r.tsSec, 8) && b[8..12] == BE(r.tsUsec * 1000 % TWO32, 4)
            && b[12..16] == BE(r.origLen, 4) && b[16..20] == BE(|r.data| % TWO32, 4) && b[20..] == r.data
  {
    hide BE;
    PktBytes(ToWire(r));
  }

  function ToWireAll(rs: seq<Record>): (ps: seq<PktRecord>)
    ensures |ps| == |rs| && forall i :: 0 <= i < |rs| ==> ps[i] == ToWire(rs[i])
  {
    seq(|rs|, i requires 0 <= i < |rs| => ToWire(rs[i]))
  }

  function FromWireAll(ps: seq<PktRecord>): (rs: seq<Record>)
    ensures |rs| == |ps| && forall i :: 0 <= i < |ps| ==> rs[i] == FromWire(ps[i])
  {
    seq(|ps|, i requires 0 <= i < |ps| => FromWire(ps[i]))
  }

  function OverLinkAll(rs: seq<Record>): (ls: seq<Record>)
    ensures |ls| == |rs| && forall i :: 0 <= i < |rs| ==> ls[i] == OverLink(rs[i])
  {
    seq(|rs|, i requires 0 <= i < |rs| => OverLink(rs[i]))
  }

  /** Microseconds the 32-bit scaling can carry. */
  predicate Exact(rs: seq<Record>) {
    forall i :: 0 <= i < |rs| ==> rs[i].tsUsec <= 4294967
  }

  lemma OverLinkIff(rs: seq<Record>)
    ensures OverLinkAll(rs) == rs <==> Exact(rs)
  {
    forall i | 0 <= i < |rs| ensures OverLink(rs[i]) == rs[i] <==> rs[i].tsUsec <= 4294967 {
      ConversionIff(rs[i]);
    }
    if OverLinkAll(rs) == rs {
      assert forall i :: 0 <= i < |rs| ==> OverLink(rs[i]) == rs[i];
    }
  }

  lemma OverLinkSlice(rs: seq<Record>, a: nat, b: nat)
    requires a <= b <= |rs|
    ensures OverLinkAll(rs)[a..b] == OverLinkAll(rs[a..b])
  {
    hide OverLink;
  }

  lemma OverLinkPrefix(rs: seq<Record>, more: seq<Record>)
    requires rs <= more
    ensures OverLinkAll(rs) <= OverLinkAll(more)
  {
    hide OverLink;
    assert more[..|rs|] == rs;
    OverLinkSlice(more, 0, |rs|);
  }

  lemma OverLinkFits(rs: seq<Record>, snaplen: u32)
    requires FitsAll(rs, snaplen)
    ensures FitsAll(OverLinkAll(rs), snaplen)
  {
    forall i | 0 <= i < |rs| ensures Fits(OverLinkAll(rs)[i], snaplen) {
      assert Fits(rs[i], snaplen);
    }
  }

  /** What the link asks of a batch's records: a count that fits, bodies within the cap. */
  predicate Shippable(rs: seq<Record>) {
    && |rs| < TWO16
    && forall i :: 0 <= i < |rs| ==> |rs[i].data| <= MAX_PAYLOAD_LEN
  }

  /**
   Spool record, wire record, batch payload, wire record, mirror record: what comes out is
   the batch record by record, unchanged exactly when no microsecond field wraps.
   */
  lemma RecordFidelity(rs: seq<Record>)
    requires Shippable(rs)
    ensures var r := DecodeBatch(EncodeBatch(ToWireAll(rs)));
            && r.Good? && FromWireAll(r.value) == OverLinkAll(rs)
            && (FromWireAll(r.value) == rs <==> Exact(rs))
  {
    hide DecodeBatch, EncodeBatch, OverLinkAll;
    BatchRoundTrip(ToWireAll(rs));
    OverLinkIff(rs);
  }
}
