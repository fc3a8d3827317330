/** The collector's frame dispatch: dedupe by gpidx, strict-order commit, gaps and epochs. */
module Demux {
  import opened Bytes
  import opened Pcap
  import opened Wire
  import opened Frames
  import opened Stream
  import opened Mirror

  // ---- GAP payloads ----

  datatype GapMark = GapMark(srcId: u16, from: u64, to: u64)

  function EncodeGap(g: GapMark): bytes {
    BE(g.srcId, 2) + BE(g.from, 8) + BE(g.to, 8)
  }

  function DecodeGap(b: bytes): Parsed<GapMark> {
    if |b| < 18 then Truncated
    else Good(GapMark(Get16BE(b[0..2]), Get64BE(b[2..10]), Get64BE(b[10..18])))
  }

  lemma GapRoundTrip(g: GapMark)
    ensures DecodeGap(EncodeGap(g)) == Good(g)
  {
    hide BE, Get16BE, Get64BE;
    var b := EncodeGap(g);
    assert b[0..2] == BE(g.srcId, 2) && b[2..10] == BE(g.from, 8) && b[10..18] == BE(g.to, 8);
    GetBEOfBE(g.srcId, 0, g.from);
    GetBEOfBE(0, 0, g.to);
  }

  /** The payload layout, high byte first; decoding succeeds exactly on payloads that begin with it. */
  lemma GapBytes(b: bytes, g: GapMark)
    ensures var e := EncodeGap(g); e[0..2] == BE(g.srcId, 2) && e[2..10] == BE(g.from, 8) && e[10..18] == BE(g.to, 8)
    ensures DecodeGap(b) == Good(g) <==> EncodeGap(g) <= b
    ensures DecodeGap(b).Truncated? <==> |b| < 18
  {
    hide BE, Get16BE, Get64BE;
    var e := EncodeGap(g);
    GapRoundTrip(g);
    if e <= b {
      assert b[0..2] == e[0..2] && b[2..10] == e[2..10] && b[10..18] == e[10..18];
    }
    if |b| >= 18 {
      BEOfGet16BE(b[0..2]);
      BEOfGet64BE(b[2..10]);
      BEOfGet64BE(b[10..18]);
      assert b[..18] == b[0..2] + b[2..10] + b[10..18];
    }
  }

  // ---- what one message does to the mirror ----

  /** The records of a batch the mirror does not have yet. */
  function Survivors(committed: nat, base: nat, recs: seq<Record>): seq<Record>
    requires base <= committed
  {
    if committed - base <= |recs| then recs[committed - base..] else []
  }

  /** commit, in closed form: refuse a forward jump, otherwise append what is missing. */
  function CommitOn(m: Mirror, base: nat, recs: seq<Record>, seqNo: nat): (r: Option<Mirror>)
    requires m.Inv() && m.pc == Ready
    ensures r.Some? ==> r.value.Inv() && r.value.pc == Ready
    ensures r.Some? && recs != [] ==> r.value.saved.committed == Max(m.saved.committed, base + |recs|)
  {
    if recs == [] then Some(m)
    else if base > m.saved.committed then None
    else Some(Appended(m, Survivors(m.saved.committed, base, recs), seqNo))
  }

  /** t has m's session closed as it was, and a new, empty one open at start. */
  predicate Closes(m: Mirror, t: Mirror, epoch: Option<nat>, start: nat) {
    && t.past == m.past + [Session(m.saved.epoch, m.saved.sessionStart, m.cur)] && t.cur == []
    && t.saved == Resume(start, m.saved.session + 1, start, m.saved.lastSeq, epoch)
    && forall k :: 0 <= k <= m.saved.session && k in m.files ==> k in t.files && t.files[k] == m.files[k]
  }

  /** handleGap: skip forward into a new session, never back. */
  function GapOn(m: Mirror, to: nat, gh: GlobalHeader): (t: Mirror)
    requires m.Inv() && m.pc == Ready
    ensures t.Inv() && t.pc == Ready && t.saved.committed == Max(m.saved.committed, to)
    ensures to <= m.saved.committed ==> t == m
    ensures to > m.saved.committed ==> Closes(m, t, m.saved.epoch, to)
  {
    if to <= m.saved.committed then m else Rotated(m, to, m.saved.epoch, gh)
  }

  /** reconcileEpoch: adopt on first contact, realign when the agent's spool is another instance. */
  function EpochOn(m: Mirror, epoch: Option<nat>, from: nat, gh: GlobalHeader): (t: Mirror)
    requires m.Inv() && m.pc == Ready
    ensures t.Inv() && t.pc == Ready
    ensures epoch.None? || m.saved.epoch == epoch ==> t == m
    ensures epoch.Some? && m.saved.epoch.None? ==> t == m.(saved := m.saved.(epoch := epoch))
    ensures epoch.Some? && m.saved.epoch.Some? && m.saved.epoch != epoch ==> Closes(m, t, epoch, from)
  {
    if epoch.None? || m.saved.epoch == epoch then m
    else if m.saved.epoch.None? then
      StepKeeps(m, AAdopt(epoch.value), Adopt(m, epoch.value));
      Adopt(m, epoch.value)
    else Rotated(m, from, epoch, gh)
  }

  /** Committing a batch twice is committing it once. */
  lemma CommitIdempotent(m: Mirror, base: nat, recs: seq<Record>, seqNo: nat, again: nat)
    requires m.Inv() && m.pc == Ready && CommitOn(m, base, recs, seqNo).Some?
    ensures CommitOn(CommitOn(m, base, recs, seqNo).value, base, recs, again) == CommitOn(m, base, recs, seqNo)
  {
    hide Appended, Mirror.Inv;
    var t := CommitOn(m, base, recs, seqNo).value;
    if recs != [] {
      assert Survivors(t.saved.committed, base, recs) == [];
    }
  }

  /** A batch cut from the log extends the session by exactly the log records it lacks. */
  lemma CommitFollowsLog(m: Mirror, log: seq<Record>, base: nat, recs: seq<Record>, seqNo: nat)
    requires m.Inv() && m.pc == Ready && m.saved.committed <= |log|
    requires m.cur == log[m.saved.sessionStart..m.saved.committed]
    requires base + |recs| <= |log| && recs == log[base..base + |recs|] && (recs == [] || base <= m.saved.committed)
    ensures CommitOn(m, base, recs, seqNo).Some?
    ensures var t := CommitOn(m, base, recs, seqNo).value;
            && t.past == m.past && t.saved.session == m.saved.session && t.saved.epoch == m.saved.epoch
            && t.saved.sessionStart == m.saved.sessionStart
            && m.saved.committed <= t.saved.committed <= |log|
            && t.cur == log[t.saved.sessionStart..t.saved.committed]
  {
    hide Mirror.Inv;
    if recs != [] {
      var c, s := m.saved.committed, m.saved.sessionStart;
      var keep := Survivors(c, base, recs);
      CommittedSize(m);
      if c - base <= |recs| {
        assert keep == log[c..base + |recs|];
        assert log[s..c] + keep == log[s..base + |recs|];
      }
    }
  }

  /**
   commit, packet by packet: it is refused if and only if the batch is not empty and
   starts past the commit point; otherwise each gpidx the session had keeps its record,
   and each one past the old commit point gets the record the batch has for it.
   */
  lemma CommitPointwise(m: Mirror, base: nat, recs: seq<Record>, seqNo: nat)
    requires m.Inv() && m.pc == Ready
    ensures var r, start, c := CommitOn(m, base, recs, seqNo), m.saved.sessionStart, m.saved.committed;
            && (r.None? <==> recs != [] && base > c)
            && (r.Some? ==>
                  var t := r.value;
                  && t.past == m.past && t.saved.sessionStart == start && t.saved.epoch == m.saved.epoch
                  && t.saved.committed == start + |t.cur| == (if recs == [] then c else Max(c, base + |recs|))
                  && forall i :: 0 <= i < |t.cur| ==>
                       t.cur[i] == if i < |m.cur| then m.cur[i] else recs[start + i - base])
  {
    hide Mirror.Inv, Appended, EncodeAll;
    CommittedSize(m);
    if recs != [] && base <= m.saved.committed {
      var keep := Survivors(m.saved.committed, base, recs);
      assert CommitOn(m, base, recs, seqNo).value.cur == m.cur + keep;
    }
  }

  lemma CommittedSize(m: Mirror)
    requires m.Inv()
    ensures m.saved.committed == m.saved.sessionStart + |m.cur|
  {
  }

  lemma NoSurvivors(committed: nat, base: nat)
    ensures FromWireAll([]) == []
    ensures base <= committed ==> Survivors(committed, base, []) == []
  {
  }

  /** One turn of commit's loop. */
  lemma SurvivorsNext(committed: nat, base: nat, ps: seq<PktRecord>, i: nat)
    requires base <= committed && i < |ps|
    ensures var keep := Survivors(committed, base, FromWireAll(ps[..i]));
            && Survivors(committed, base, FromWireAll(ps[..i + 1]))
               == (if base + i < committed then keep else keep + [FromWire(ps[i])])
            && base + i <= committed + |keep|
  {
    var a, b := FromWireAll(ps[..i]), FromWireAll(ps[..i + 1]);
    assert b == a + [FromWire(ps[i])];
  }

  // ---- frames ----

  const PKT_BATCH: byte := 0x02
  const HEARTBEAT: byte := 0x11
  const GAP: byte := 0x13
  const STATS: byte := 0x12
  const SRCINFO: byte := 0x10
  const TLS_KEYLOG: byte := 0xA0
  const FLAG_GAP: u16 := 4

  predicate Compressed(flags: u16) { flags % 2 == 1 }

  /** An unknown type may be skipped when its high bit is set. */
  predicate Skippable(typ: byte) { typ >= 0x80 }

  type Inflate = bytes -> Parsed<bytes>

  /** What a frame says to this collector; None ends the connection. `inflate` is the link decompressor. */
  function Meaning(srcId: u16, inflate: Inflate, f: Frame): Option<Event> {
    if f.sourceId != srcId && f.sourceId != 0 && f.typ != HEARTBEAT then Some(Quiet)
    else if f.typ == PKT_BATCH then
      match if Compressed(f.flags) then inflate(f.payload) else Good(f.payload)
      case Truncated => None
      case Good(payload) =>
        match DecodeBatch(payload)
        case Truncated => None
        case Good(ps) => Some(Batch(f.baseGpidx, FromWireAll(ps)))
    else if f.typ == GAP then
      match DecodeGap(f.payload)
      case Truncated => None
      case Good(g) => Some(Gap(g.from, g.to))
    else if f.typ in {HEARTBEAT, STATS, TLS_KEYLOG, SRCINFO} || Skippable(f.typ) then Some(Quiet)
    else None
  }

  /** What an event does to the mirror; None ends the connection. */
  function OnEvent(m: Mirror, gh: GlobalHeader, e: Event, seqNo: nat): (r: Option<Mirror>)
    requires m.Inv() && m.pc == Ready
    ensures r.Some? ==> r.value.Inv() && r.value.pc == Ready
  {
    match e
    case Batch(base, recs) => CommitOn(m, base, recs, seqNo)
    case Gap(_, to) => Some(GapOn(m, to, gh))
    case Quiet => Some(m)
  }

  /** One pass of Demux.Run's loop. */
  function OnFrame(m: Mirror, srcId: u16, gh: GlobalHeader, inflate: Inflate, f: Frame): (r: Option<Mirror>)
    requires m.Inv() && m.pc == Ready
    ensures r.Some? ==> r.value.Inv() && r.value.pc == Ready
  {
    match Meaning(srcId, inflate, f)
    case None => None
    case Some(e) => OnEvent(m, gh, e, f.seqNo)
  }

  /** The mirror after the frames of one connection, up to the first that ends it. */
  function OnFrames(m: Mirror, srcId: u16, gh: GlobalHeader, inflate: Inflate, fs: seq<Frame>): (t: Mirror)
    requires m.Inv() && m.pc == Ready
    ensures t.Inv() && t.pc == Ready
    decreases |fs|
  {
    hide OnFrame, Mirror.Inv;
    if fs == [] then m
    else match OnFrame(m, srcId, gh, inflate, fs[0])
      case None => m
      case Some(t) => OnFrames(t, srcId, gh, inflate, fs[1..])
  }

  /** The mirrors frames lead through, one after the other, each accepted. */
  predicate Accepts(ms: seq<Mirror>, srcId: u16, gh: GlobalHeader, inflate: Inflate, fs: seq<Frame>) {
    && |ms| == |fs| + 1
    && forall k :: 0 <= k < |fs| ==>
         ms[k].Inv() && ms[k].pc == Ready && OnFrame(ms[k], srcId, gh, inflate, fs[k]) == Some(ms[k + 1])
  }

  /** Frames are handled in order, and nothing after the first that ends the connection counts. */
  lemma {:induction false} OnFramesStops(ms: seq<Mirror>, srcId: u16, gh: GlobalHeader, inflate: Inflate,
      fs: seq<Frame>,
      rest: seq<Frame>)
    requires Accepts(ms, srcId, gh, inflate, fs) && ms[0].Inv() && ms[0].pc == Ready
    ensures ms[|fs|].Inv() && ms[|fs|].pc == Ready
    ensures rest == [] || OnFrame(ms[|fs|], srcId, gh, inflate, rest[0]).None? ==>
              OnFrames(ms[0], srcId, gh, inflate, fs + rest) == ms[|fs|]
    decreases |fs|
  {
    hide OnFrame, Mirror.Inv;
    if fs == [] {
      assert fs + rest == rest;
    } else {
      assert OnFrame(ms[0], srcId, gh, inflate, fs[0]) == Some(ms[0 + 1]);
      AcceptsRest(ms, srcId, gh, inflate, fs);
      OnFramesStops(ms[1..], srcId, gh, inflate, fs[1..], rest);
      assert (fs + rest)[1..] == fs[1..] + rest && (fs + rest)[0] == fs[0];
    }
  }

  lemma AcceptsRest(ms: seq<Mirror>, srcId: u16, gh: GlobalHeader, inflate: Inflate, fs: seq<Frame>)
    requires Accepts(ms, srcId, gh, inflate, fs) && fs != [] && ms[0].Inv() && ms[0].pc == Ready
    ensures Accepts(ms[1..], srcId, gh, inflate, fs[1..]) && ms[1].Inv() && ms[1].pc == Ready
  {
    hide OnFrame, Mirror.Inv;
    assert OnFrame(ms[0], srcId, gh, inflate, fs[0]) == Some(ms[0 + 1]);
    forall k | 0 <= k < |fs| - 1
      ensures ms[1..][k].Inv() && ms[1..][k].pc == Ready
      ensures OnFrame(ms[1..][k], srcId, gh, inflate, fs[1..][k]) == Some(ms[1..][k + 1])
    {
      assert OnFrame(ms[k + 1], srcId, gh, inflate, fs[k + 1]) == Some(ms[k + 1 + 1]);
    }
  }

  /** Another source's frames, heartbeats aside, say nothing; nor do this one's that carry no packets. */
  lemma SaysNothing(srcId: u16, inflate: Inflate, f: Frame)
    requires (f.sourceId != srcId && f.sourceId != 0) || (f.typ != PKT_BATCH && f.typ != GAP)
    requires f.typ in {0x10, 0x11, 0x12, 0xA0} || f.typ >= 0x80 || (f.sourceId != srcId && f.sourceId != 0)
    ensures Meaning(srcId, inflate, f) == Some(Quiet)
  {
  }

  /** A frame ends the connection exactly when it is this source's and unknown, cut short, or cannot be inflated. */
  lemma EndsConnection(srcId: u16, inflate: Inflate, f: Frame)
    ensures Meaning(srcId, inflate, f).None? <==>
              && (f.sourceId == srcId || f.sourceId == 0)
              && match f.typ
                 case 0x02 => (f.flags % 2 == 1 && inflate(f.payload).Truncated?)
                           || DecodeBatch(if f.flags % 2 == 1 && inflate(f.payload).Good? then inflate(f.payload).value
                                          else f.payload).Truncated?
                 case 0x13 => |f.payload| < 18
                 case t => t !in {0x10, 0x11, 0x12, 0xA0} && t < 0x80
  {
    hide DecodeBatch, Get16BE, Get64BE;
  }

  /** What a batch frame and a gap frame of this source say. */
  lemma SaysPackets(srcId: u16, inflate: Inflate, f: Frame, ps: seq<PktRecord>, g: GapMark)
    requires f.sourceId == srcId || f.sourceId == 0
    ensures f.typ == 0x02 ==>
              var raw := if f.flags % 2 == 1 then inflate(f.payload) else Good(f.payload);
              raw.Good? && DecodeBatch(raw.value) == Good(ps) ==>
                Meaning(srcId, inflate, f) == Some(Batch(f.baseGpidx, FromWireAll(ps)))
    ensures f.typ == 0x13 && EncodeGap(g) <= f.payload ==> Meaning(srcId, inflate, f) == Some(Gap(g.from, g.to))
  {
    hide DecodeBatch, EncodeGap, DecodeGap, FromWireAll;
    GapBytes(f.payload, g);
  }

  class FrameDemux {
    const srcId: u16
    const mirror: MirrorStore

    constructor (srcId: u16, mirror: MirrorStore)
      ensures this.srcId == srcId && this.mirror == mirror
    {
      this.srcId, this.mirror := srcId, mirror;
    }

    /** commit's loop: skip duplicates, fail closed on a hole, keep the rest. */
    method Commit(base: nat, ps: seq<PktRecord>, seqNo: nat) returns (ok: bool)
      requires mirror.Valid()
      modifies mirror
      ensures mirror.Valid() && mirror.gh == old(mirror.gh)
      ensures var r := CommitOn(old(mirror.M()), base, FromWireAll(ps), seqNo);
              ok == r.Some? && mirror.M() == if ok then r.value else old(mirror.M())
    {
      hide Appended, Mirror.Inv, FromWireAll, Survivors;
      var committed := mirror.committed;
      var keep: seq<Record> := [];
      NoSurvivors(committed, base);
      for i := 0 to |ps|
        invariant unchanged(mirror)
        invariant (i > 0 ==> base <= committed) && (i == 0 ==> keep == [])
        invariant base <= committed ==> keep == Survivors(committed, base, FromWireAll(ps[..i]))
      {
        var gp := base + i;
        if base <= committed {
          SurvivorsNext(committed, base, ps, i);
        }
        if gp < committed {
          continue;
        }
        if gp > committed + |keep| {
          return false;
        }
        keep := keep + [FromWire(ps[i])];
      }
      assert ps[..|ps|] == ps;
      if keep != [] {
        mirror.Append(keep, seqNo);
      }
      ok := true;
    }

    method HandleGap(payload: bytes) returns (ok: bool)
      requires mirror.Valid()
      modifies mirror
      ensures mirror.Valid() && mirror.gh == old(mirror.gh)
      ensures ok <==> DecodeGap(payload).Good?
      ensures mirror.M() == if ok then GapOn(old(mirror.M()), DecodeGap(payload).value.to, mirror.gh)
                            else old(mirror.M())
    {
      hide Rotated, Mirror.Inv;
      var g := DecodeGap(payload);
      if g.Truncated? {
        return false;
      }
      if g.value.to > mirror.committed {
        mirror.NewSession(g.value.to);
      }
      ok := true;
    }

    method ReconcileEpoch(epoch: Option<nat>, from: nat)
      requires mirror.Valid()
      modifies mirror
      ensures mirror.Valid() && mirror.M() == EpochOn(old(mirror.M()), epoch, from, mirror.gh)
    {
      hide Rotated, Mirror.Inv;
      if epoch.None? {
        return;
      }
      var have := mirror.state.epoch;
      if have.None? {
        mirror.AdoptEpoch(epoch.value);
      } else if have != epoch {
        mirror.ResetForEpoch(epoch.value, from);
      }
    }

    method Dispatch(inflate: Inflate, f: Frame) returns (ok: bool)
      requires mirror.Valid()
      modifies mirror
      ensures mirror.Valid() && mirror.gh == old(mirror.gh)
      ensures var r := OnFrame(old(mirror.M()), srcId, mirror.gh, inflate, f);
              ok == r.Some? && mirror.M() == if ok then r.value else old(mirror.M())
    {
      hide CommitOn, GapOn, Mirror.Inv, DecodeGap;
      if f.sourceId != srcId && f.sourceId != 0 && f.typ != HEARTBEAT {
        return true;
      }
      if f.typ == PKT_BATCH {
        var payload := if Compressed(f.flags) then inflate(f.payload) else Good(f.payload);
        if payload.Truncated? {
          return false;
        }
        var ps := DecodePktBatch(payload.value);
        if ps.Truncated? {
          return false;
        }
        ok := Commit(f.baseGpidx, ps.value, f.seqNo);
      } else if f.typ == GAP {
        ok := HandleGap(f.payload);
      } else {
        ok := f.typ in {HEARTBEAT, STATS, TLS_KEYLOG, SRCINFO} || Skippable(f.typ);
      }
    }

    /** Run's loop over the frames a connection delivered before it ended. */
    method Run(inflate: Inflate, fs: seq<Frame>)
      requires mirror.Valid()
      modifies mirror
      ensures mirror.Valid() && mirror.M() == OnFrames(old(mirror.M()), srcId, mirror.gh, inflate, fs)
      ensures mirror.gh == old(mirror.gh)
    {
      hide OnFrame, Mirror.Inv;
      var i := 0;
      assert fs[0..] == fs;
      while i < |fs|
        invariant i <= |fs| && mirror.Valid() && mirror.gh == old(mirror.gh)
        invariant OnFrames(mirror.M(), srcId, mirror.gh, inflate, fs[i..])
               == OnFrames(old(mirror.M()), srcId, mirror.gh, inflate, fs)
      {
        var ok := Dispatch(inflate, fs[i]);
        if !ok {
          return;
        }
        assert fs[i..][1..] == fs[i + 1..];
        i := i + 1;
      }
    }
  }
}
