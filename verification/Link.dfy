/** The link end to end: serve's events as framed bytes, cut anywhere, dispatched by the collector. */
module Link {
  import opened Bytes
  import opened Pcap
  import opened Wire
  import opened Frames
  import opened Stream
  import opened Mirror
  import opened Demux

  /** One event as the streamer sends it. A quiet one has its own frame type and payload. */
  datatype Post = Post(event: Event, seqNo: u64, typ: byte, note: bytes)

  /** A packet or gap, whose frame type and payload follow from the event. */
  function Plain(e: Event, seqNo: u64): Post { Post(e, seqNo, 0, []) }

  datatype Channel = Channel(srcId: u16, crc: Crc, compress: bool, deflate: bytes -> bytes, inflate: Inflate)

  /** The one thing asked of the compressor: the collector can undo it. */
  ghost predicate Lossless(c: Channel) {
    c.compress ==> forall b :: c.inflate(c.deflate(b)) == Good(b)
  }

  predicate Sendable(c: Channel, p: Post) {
    match p.event
    case Batch(base, recs) =>
      && base < TWO64 && Shippable(recs)
      && |BatchPayload(c, recs)| <= MAX_PAYLOAD_LEN
    case Gap(from, to) => from < TWO64 && to < TWO64
    case Quiet => p.typ in {HEARTBEAT, STATS, TLS_KEYLOG} && |p.note| <= MAX_PAYLOAD_LEN
  }

  predicate AllSendable(c: Channel, ps: seq<Post>) {
    forall i :: 0 <= i < |ps| ==> Sendable(c, ps[i])
  }

  function BatchPayload(c: Channel, recs: seq<Record>): bytes
    requires Shippable(recs)
  {
    var b := EncodeBatch(ToWireAll(recs));
    if c.compress then c.deflate(b) else b
  }

  /** sendBatch, sendGap; sendHeartbeat, sendStats and sendKeylog. */
  function FrameOf(c: Channel, p: Post): Frame
    requires Sendable(c, p)
  {
    match p.event
    case Batch(base, recs) =>
      Frame(PKT_BATCH, if c.compress then 1 else 0, c.srcId, base, p.seqNo, BatchPayload(c, recs))
    case Gap(from, to) => Frame(GAP, FLAG_GAP, c.srcId, 0, p.seqNo, EncodeGap(GapMark(c.srcId, from, to)))
    case Quiet => Frame(p.typ, 0, c.srcId, 0, p.seqNo, p.note)
  }

  function FramesOf(c: Channel, ps: seq<Post>): (fs: seq<Frame>)
    requires AllSendable(c, ps)
    ensures |fs| == |ps| && forall i :: 0 <= i < |ps| ==> fs[i] == FrameOf(c, ps[i])
  {
    seq(|ps|, i requires 0 <= i < |ps| => FrameOf(c, ps[i]))
  }

  /** What the collector makes of a post: its event, as the link delivers it. */
  function OnPost(m: Mirror, gh: GlobalHeader, p: Post): (r: Option<Mirror>)
    requires m.Inv() && m.pc == Ready
    ensures r.Some? ==> r.value.Inv() && r.value.pc == Ready
  {
    OnEvent(m, gh, Landed(p.event), p.seqNo)
  }

  function OnPosts(m: Mirror, gh: GlobalHeader, ps: seq<Post>): (t: Mirror)
    requires m.Inv() && m.pc == Ready
    ensures t.Inv() && t.pc == Ready
    decreases |ps|
  {
    hide OnPost, Mirror.Inv;
    if ps == [] then m
    else match OnPost(m, gh, ps[0])
      case None => m
      case Some(t) => OnPosts(t, gh, ps[1..])
  }

  /** A frame says to the demux exactly what its event said to serve, up to the record conversion. */
  lemma FrameMeans(c: Channel, p: Post)
    requires Lossless(c) && Sendable(c, p)
    ensures Meaning(c.srcId, c.inflate, FrameOf(c, p)) == Some(Landed(p.event)) && FrameOf(c, p).seqNo == p.seqNo
  {
    hide EncodeBatch, DecodeBatch, EncodeGap, DecodeGap, OverLinkAll;
    match p.event
    case Batch(_, recs) => RecordFidelity(recs);
    case Gap(from, to) => GapRoundTrip(GapMark(c.srcId, from, to));
    case Quiet =>
  }

  lemma {:induction false} FramesArePosts(c: Channel, m: Mirror, gh: GlobalHeader, ps: seq<Post>)
    requires Lossless(c) && AllSendable(c, ps) && m.Inv() && m.pc == Ready
    ensures OnFrames(m, c.srcId, gh, c.inflate, FramesOf(c, ps)) == OnPosts(m, gh, ps)
    decreases |ps|
  {
    hide Mirror.Inv, OnEvent, Meaning, FrameOf, Lossless, Sendable;
    if ps != [] {
      FrameMeans(c, ps[0]);
      assert FramesOf(c, ps)[1..] == FramesOf(c, ps[1..]);
      match OnPost(m, gh, ps[0])
      case None =>
      case Some(t) => FramesArePosts(c, t, gh, ps[1..]);
    }
  }

  lemma PayloadCapped(c: Channel, p: Post)
    requires Sendable(c, p)
    ensures |FrameOf(c, p).payload| <= MAX_PAYLOAD_LEN
  {
    hide BatchPayload, BE;
  }

  lemma AllCapped(c: Channel, ps: seq<Post>)
    requires AllSendable(c, ps)
    ensures Capped(FramesOf(c, ps))
  {
    hide FrameOf, Sendable;
    forall i | 0 <= i < |ps| ensures |FramesOf(c, ps)[i].payload| <= MAX_PAYLOAD_LEN {
      PayloadCapped(c, ps[i]);
    }
  }

  /**
   Whatever byte the connection dies at, the collector's mirror is what a whole
   number of serve's events, from the first on, makes of it.
   */
  lemma CutLinkDeliversPrefix(c: Channel, m: Mirror, gh: GlobalHeader, ps: seq<Post>, cut: bytes)
    requires Lossless(c) && AllSendable(c, ps) && m.Inv() && m.pc == Ready
    requires cut <= EncodeFrames(c.crc, FramesOf(c, ps))
    ensures var k := Whole(c.crc, FramesOf(c, ps), |cut|);
            OnFrames(m, c.srcId, gh, c.inflate, ReadAll(c.crc, cut)) == OnPosts(m, gh, ps[..k])
  {
    hide Mirror.Inv, OnFrames, OnPosts, EncodeFrames, ReadAll, Whole, FrameOf, Lossless, Sendable, Capped;
    var fs := FramesOf(c, ps);
    AllCapped(c, ps);
    CutAnywhere(c.crc, fs, cut);
    var k := Whole(c.crc, fs, |cut|);
    assert fs[..k] == FramesOf(c, ps[..k]);
    FramesArePosts(c, m, gh, ps[..k]);
  }

  function EventsOf(ps: seq<Post>): (evs: seq<Event>)
    ensures |evs| == |ps| && forall i :: 0 <= i < |ps| ==> evs[i] == ps[i].event
  {
    seq(|ps|, i requires 0 <= i < |ps| => ps[i].event)
  }

  /** The current session is the log, as the link delivers it, from its start to the commit point. */
  predicate Follows(m: Mirror, log: seq<Record>) {
    && m.saved.sessionStart <= m.saved.committed <= |log|
    && m.cur == OverLinkAll(log)[m.saved.sessionStart..m.saved.committed]
  }

  /** A lawful event is never refused, and leaves the mirror at or past where the stream stands. */
  lemma PostFollows(m: Mirror, gh: GlobalHeader, log: seq<Record>, low: nat, at: nat, p: Post)
    requires m.Inv() && m.pc == Ready && Follows(m, log) && at <= m.saved.committed && low <= |log|
    requires Sends(log, low, at, p.event)
    ensures OnPost(m, gh, p).Some?
    ensures var t := OnPost(m, gh, p).value;
            Follows(t, log) && Past(at, p.event) <= t.saved.committed && m.saved.committed <= t.saved.committed
  {
    hide Mirror.Inv, Appended, Rotated, OverLinkAll;
    LandedSends(log, low, at, p.event);
    match Landed(p.event)
    case Batch(base, recs) => CommitFollowsLog(m, OverLinkAll(log), base, recs, p.seqNo);
    case Gap(_, to) =>
    case Quiet =>
  }

  /** Along a lawful stream the forward-jump check never fires and the mirror keeps up with it. */
  lemma {:induction false} StreamFollows(m: Mirror, gh: GlobalHeader, log: seq<Record>, low: nat, at: nat,
      ps: seq<Post>)
    requires m.Inv() && m.pc == Ready && Follows(m, log) && at <= m.saved.committed && low <= |log|
    requires Flows(log, low, at, EventsOf(ps))
    ensures var t := OnPosts(m, gh, ps);
            Follows(t, log) && Tip(at, EventsOf(ps)) <= t.saved.committed && m.saved.committed <= t.saved.committed
    decreases |ps|
  {
    hide Mirror.Inv, OnPost, Sends, Follows, Past;
    if ps != [] {
      PostFollows(m, gh, log, low, at, ps[0]);
      assert EventsOf(ps)[1..] == EventsOf(ps[1..]);
      StreamFollows(OnPost(m, gh, ps[0]).value, gh, log, low, Past(at, ps[0].event), ps[1..]);
    }
  }

  /**
   One connection, whole: the frames of a lawful stream, cut at any byte, leave the
   mirror's session equal to the log, record by record as the link delivers it, from its
   start to a commit point no lower than before.
   */
  lemma ConnectionFollowsLog(c: Channel, m: Mirror, gh: GlobalHeader, log: seq<Record>, low: nat, at: nat,
                             ps: seq<Post>, cut: bytes)
    requires Lossless(c) && AllSendable(c, ps) && cut <= EncodeFrames(c.crc, FramesOf(c, ps))
    requires m.Inv() && m.pc == Ready && Follows(m, log) && at <= m.saved.committed && low <= |log|
    requires Flows(log, low, at, EventsOf(ps))
    ensures var t := OnFrames(m, c.srcId, gh, c.inflate, ReadAll(c.crc, cut));
            && Follows(t, log) && m.saved.committed <= t.saved.committed
            && Tip(at, EventsOf(ps[..Whole(c.crc, FramesOf(c, ps), |cut|)])) <= t.saved.committed
  {
    hide Mirror.Inv, OnFrames, OnPosts, EncodeFrames, ReadAll, Whole, FramesOf, Lossless, AllSendable, Follows,
      Flows, Tip;
    CutLinkDeliversPrefix(c, m, gh, ps, cut);
    var k := Whole(c.crc, FramesOf(c, ps), |cut|);
    assert k <= |ps|;
    FlowsPrefix(log, low, at, EventsOf(ps), k);
    assert EventsOf(ps)[..k] == EventsOf(ps[..k]);
    StreamFollows(m, gh, log, low, at, ps[..k]);
  }

  // ---- the bytes in flight ----

  /** `wire` is, byte for byte, the frames of `queue` that serve has sent. */
  ghost predicate AllSent(c: Channel, queue: seq<Event>, wire: bytes) {
    exists ps :: AllSendable(c, ps) && EventsOf(ps) == queue && wire == EncodeFrames(c.crc, FramesOf(c, ps))
  }

  /** `wire` is some front part of those bytes: the connection may have been cut at any byte. */
  ghost predicate InFlight(c: Channel, queue: seq<Event>, wire: bytes) {
    exists ps :: AllSendable(c, ps) && EventsOf(ps) == queue && wire <= EncodeFrames(c.crc, FramesOf(c, ps))
  }

  lemma NothingSent(c: Channel)
    ensures AllSent(c, [], [])
  {
    var ps: seq<Post> := [];
    assert AllSendable(c, ps) && EventsOf(ps) == [] && EncodeFrames(c.crc, FramesOf(c, ps)) == [];
  }

  lemma SentInFlight(c: Channel, queue: seq<Event>, wire: bytes)
    requires AllSent(c, queue, wire)
    ensures InFlight(c, queue, wire)
  {
    hide AllSendable, EncodeFrames;
  }

  lemma CutInFlight(c: Channel, queue: seq<Event>, wire: bytes, n: nat)
    requires InFlight(c, queue, wire) && n <= |wire|
    ensures InFlight(c, queue, wire[..n])
  {
    hide AllSendable, EncodeFrames;
    var ps :| AllSendable(c, ps) && EventsOf(ps) == queue && wire <= EncodeFrames(c.crc, FramesOf(c, ps));
    assert wire[..n] <= EncodeFrames(c.crc, FramesOf(c, ps));
  }

  lemma {:induction false} EncodeFramesSnoc(crc: Crc, fs: seq<Frame>, f: Frame)
    ensures EncodeFrames(crc, fs + [f]) == EncodeFrames(crc, fs) + EncodeFrame(crc, f)
  {
    hide EncodeFrame;
    if fs == [] {
      assert fs + [f] == [f] && [f][1..] == [];
    } else {
      EncodeFramesSnoc(crc, fs[1..], f);
      assert (fs + [f])[1..] == fs[1..] + [f];
    }
  }

  lemma SendMore(c: Channel, queue: seq<Event>, wire: bytes, p: Post)
    requires AllSent(c, queue, wire) && Sendable(c, p)
    ensures AllSent(c, queue + [p.event], wire + EncodeFrame(c.crc, FrameOf(c, p)))
  {
    hide Sendable, EncodeFrames, EncodeFrame, FrameOf;
    var ps :| AllSendable(c, ps) && EventsOf(ps) == queue && wire == EncodeFrames(c.crc, FramesOf(c, ps));
    assert EventsOf(ps + [p]) == queue + [p.event];
    assert FramesOf(c, ps + [p]) == FramesOf(c, ps) + [FrameOf(c, p)];
    EncodeFramesSnoc(c.crc, FramesOf(c, ps), FrameOf(c, p));
  }

  /**
   What the collector can read next. A whole frame at the front of the bytes is serve's
   next event, as the link delivers it; anything else there reads as the end of the stream.
   */
  lemma Hears(c: Channel, queue: seq<Event>, wire: bytes)
    requires Lossless(c) && InFlight(c, queue, wire)
    ensures var r := ReadFrame(c.crc, wire);
            && (r.Got? || r == Short)
            && (r.Got? ==> && queue != [] && Meaning(c.srcId, c.inflate, r.frame) == Some(Landed(queue[0]))
                           && InFlight(c, queue[1..], wire[r.used..])
                           && (AllSent(c, queue, wire) ==> AllSent(c, queue[1..], wire[r.used..])))
            && (AllSent(c, queue, wire) && queue != [] ==> r.Got?)
  {
    hide Sendable, EncodeFrame, FrameOf, ReadFrame, Meaning, Landed, Lossless;
    var ps :| AllSendable(c, ps) && EventsOf(ps) == queue && wire <= EncodeFrames(c.crc, FramesOf(c, ps));
    HearsPosts(c, ps, wire);
    if AllSent(c, queue, wire) {
      var qs :| AllSendable(c, qs) && EventsOf(qs) == queue && wire == EncodeFrames(c.crc, FramesOf(c, qs));
      HearsPosts(c, qs, wire);
    }
  }

  lemma HearsPosts(c: Channel, ps: seq<Post>, wire: bytes)
    requires Lossless(c) && AllSendable(c, ps) && wire <= EncodeFrames(c.crc, FramesOf(c, ps))
    ensures var r, queue := ReadFrame(c.crc, wire), EventsOf(ps);
            && (r.Got? || r == Short)
            && (r.Got? ==> && ps != [] && Meaning(c.srcId, c.inflate, r.frame) == Some(Landed(queue[0]))
                           && InFlight(c, queue[1..], wire[r.used..])
                           && (wire == EncodeFrames(c.crc, FramesOf(c, ps)) ==> AllSent(c, queue[1..], wire[r.used..])))
            && (wire == EncodeFrames(c.crc, FramesOf(c, ps)) && ps != [] ==> r.Got?)
  {
    hide Sendable, EncodeFrame, FrameOf, ReadFrame, Meaning, Landed, Lossless;
    if ps == [] {
      ShortStream(c.crc, wire);
    } else {
      var f, rest := FrameOf(c, ps[0]), EncodeFrames(c.crc, FramesOf(c, ps[1..]));
      var e := EncodeFrame(c.crc, f);
      assert FramesOf(c, ps)[1..] == FramesOf(c, ps[1..]);
      assert EncodeFrames(c.crc, FramesOf(c, ps)) == e + rest;
      assert EventsOf(ps)[1..] == EventsOf(ps[1..]);
      PayloadCapped(c, ps[0]);
      FrameMeans(c, ps[0]);
      if |wire| < |e| {
        assert wire == (e + rest)[..|wire|] == e[..|wire|];
        ReadCut(c.crc, f, wire);
      } else {
        assert wire == e + wire[|e|..];
        ReadEncoded(c.crc, f, wire[|e|..]);
        assert wire[|e|..] <= rest;
        assert AllSendable(c, ps[1..]);
      }
    }
  }
}
