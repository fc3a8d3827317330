/** The headline results, over every run of the whole system. */
module ExactlyOnce {
  import opened Bytes
  import opened Pcap
  import opened Wire
  import opened Frames
  import opened Link
  import opened History
  import opened System
  import MI = Mirror
  import SP = Spool
  import DX = Demux

  /**
   Successive states of the system from the first start on, by any interleaving of its
   steps, over any checksum and any compressor the collector can undo. What a run cannot
   contain: a recovery of an unanchored disk (Spool.CanRecover), a spool instance
   restarted with another snaplen, a collector started with a snaplen below the agent's,
   a gpidx of 2^64 or a batch over the wire's limits.
   */
  ghost predicate IsRun(run: seq<System>, moves: seq<Move>) {
    IsPath(run, moves) && exists l, gh :: Lossless(l) && run[0] == Init(l, gh)
  }

  /** Successive states from wherever the first one is. */
  ghost predicate IsPath(path: seq<System>, moves: seq<Move>) {
    && |path| == |moves| + 1
    && forall i :: 0 <= i < |moves| ==> path[i].Inv() && Step(path[i], moves[i], path[i + 1])
  }

  lemma InitInv(l: Channel, gh: GlobalHeader)
    requires Lossless(l)
    ensures Init(l, gh).Inv()
  {
    hide SP.Spool.Inv, SP.Init, Lossless;
    SP.InitInv(gh);
    MI.InitInv();
  }

  /** The invariant is never what stops a step: every state of a run has it. */
  lemma RunKeepsInv(run: seq<System>, moves: seq<Move>, i: nat)
    requires IsRun(run, moves) && i < |run|
    ensures run[i].Inv()
  {
    hide System.Inv, Step, Init, Lossless;
    if i == 0 {
      var l, gh :| Lossless(l) && run[0] == Init(l, gh);
      InitInv(l, gh);
    } else {
      assert Step(run[i - 1], moves[i - 1], run[i - 1 + 1]);
      StepKeeps(run[i - 1], moves[i - 1], run[i]);
    }
  }

  /** Sessions of s hold g exactly once, at j, as the link delivers the record the writer gave it. */
  predicate HeldOnce(s: System, e: nat, g: nat, j: nat)
    requires s.SpoolsOk() && e < |s.spools|
  {
    var ss := s.Sessions();
    && j < |ss| && ss[j].epoch == Some(e) && Contains(ss[j], g) && g < |s.Log(e)|
    && ss[j].recs[g - ss[j].start] == OverLink(s.Log(e)[g])
    && forall k :: 0 <= k < |ss| && ss[k].epoch == Some(e) && Contains(ss[k], g) ==> k == j
  }

  predicate HeldNowhere(s: System, e: nat, g: nat) {
    var ss := s.Sessions();
    forall k :: 0 <= k < |ss| && ss[k].epoch == Some(e) ==> !Contains(ss[k], g)
  }

  /**
   Exactly once. In every state of every run, for a packet g between the start of an
   epoch's first session f and the end of any of its sessions k (the commit point, for
   the newest): either exactly one session of that epoch holds g, or none does and g's
   file had been reaped. What is held is the record the writer gave that gpidx, sent
   through the link's conversion, and that is the record itself if and only if its
   microseconds survive the 32-bit scaling. The first epoch's first session starts at 0.
   */
  lemma ExactlyOnce(run: seq<System>, moves: seq<Move>, i: nat, f: nat, k: nat, g: nat) returns (j: nat)
    requires IsRun(run, moves) && i < |run| && run[i].mirror.saved.epoch.Some?
    requires var ss := run[i].Sessions(); f <= k < |ss| && ss[f].epoch == ss[k].epoch && ss[f].start <= g < End(ss[k])
    ensures var s, ss := run[i], run[i].Sessions();
            && s.SpoolsOk() && ss[0].start == 0 && ss[k].epoch.Some? && ss[k].epoch.value < |s.spools|
            && var e := ss[k].epoch.value;
            && (HeldOnce(s, e, g, j) || (HeldNowhere(s, e, g) && g < s.Low(e)))
            && (g < |s.Log(e)| ==> (OverLink(s.Log(e)[g]) == s.Log(e)[g] <==> s.Log(e)[g].tsUsec <= 4294967))
  {
    hide System.QueueOk, System.ServeOk, System.PcOk, MI.Mirror.Inv, SP.Spool.Inv, LogOf, LowOf, Step, Lossless,
      OverLink;
    RunKeepsInv(run, moves, i);
    var s, ss := run[i], run[i].Sessions();
    var logs, lows := LogsOf(s.spools), LowsOf(s.spools);
    NoneMissing(ss, logs, lows, f, k, g);
    var e := ss[k].epoch.value;
    if g < |s.Log(e)| {
      ConversionIff(s.Log(e)[g]);
    }
    if h :| 0 <= h < |ss| && ss[h].epoch == ss[k].epoch && Contains(ss[h], g) {
      j := h;
      NoneMissing(ss, logs, lows, h, h, g);
      assert TrueSession(logs, ss[h]);
      forall other | 0 <= other < |ss| && ss[other].epoch == ss[k].epoch && Contains(ss[other], g) ensures other == j {
        AtMostOnce(ss, logs, lows, j, other, g);
      }
    } else {
      j := 0;
    }
  }

  /**
   The bytes behind it: a finished session's file is its header and exactly the log
   records of its range, as the link delivers them; the current file begins with them, up
   to the commit point, which never exceeds the durable end of the agent's spool. They
   are the log's own records if and only if no microsecond field wrapped.
   */
  lemma FilesHoldTheLog(run: seq<System>, moves: seq<Move>, i: nat, k: nat)
    requires IsRun(run, moves) && i < |run| && run[i].mirror.saved.epoch.Some? && k < |run[i].Sessions()|
    ensures var s, x := run[i], run[i].Sessions()[k];
            && s.SpoolsOk() && x.epoch.Some? && x.epoch.value < |s.spools| && End(x) <= |s.Log(x.epoch.value)|
            && var log := s.Log(x.epoch.value)[x.start..End(x)];
            var rs := OverLinkAll(log);
            && (rs == log <==> Exact(log))
            && (k < |s.mirror.past| ==> k in s.mirror.files && MI.Body(s.mirror.files[k], rs))
            && (k == |s.mirror.past| ==> x.epoch == s.mirror.saved.epoch && End(x) == s.mirror.saved.committed)
            && (k == |s.mirror.past| && rs != [] ==> k in s.mirror.files && Carries(s.mirror.files[k], rs))
  {
    hide System.QueueOk, System.ServeOk, System.PcOk, SP.Spool.Inv, LogOf, LowOf, Step, EncodeAll, Succeeds,
      MI.Body, Carries, OverLinkAll, Lossless;
    RunKeepsInv(run, moves, i);
    var s, x := run[i], run[i].Sessions()[k];
    assert TrueSession(LogsOf(s.spools), s.Sessions()[k]);
    var log := s.Log(x.epoch.value);
    OverLinkIff(log[x.start..End(x)]);
    OverLinkSlice(log, x.start, End(x));
    UnderWay(s.mirror);
    if k == |s.mirror.past| && s.mirror.cur != [] {
      MI.CarriesNow(s.mirror);
    }
  }

  /**
   Nothing serve sends is ever refused. Whatever bytes are left on the link, the next
   read is a whole frame the collector understands or the end of the stream, and a batch
   in hand never starts past the commit point.
   */
  lemma NeverRefused(run: seq<System>, moves: seq<Move>, i: nat)
    requires IsRun(run, moves) && i < |run| && run[i].conn.Some?
    ensures var s, c := run[i], run[i].conn.value;
            var r := ReadFrame(s.link.crc, c.wire);
            && (r == Short || (r.Got? && DX.Meaning(s.link.srcId, s.link.inflate, r.frame).Some?))
            && (c.hand.Some? && c.hand.value.event.Batch? ==> c.hand.value.event.base <= s.mirror.saved.committed)
  {
    hide System.Inv, Step, ReadFrame, DX.Meaning, SP.Spool.Inv, MI.Mirror.Inv, OverLinkAll, LogOf, LowOf;
    RunKeepsInv(run, moves, i);
    var s, c := run[i], run[i].conn.value;
    OnTheWire(s);
    Hears(s.link, c.queue, c.wire);
    if c.hand.Some? {
      InHand(s);
    }
  }

  lemma OnTheWire(s: System)
    requires s.Inv() && s.conn.Some?
    ensures Lossless(s.link) && InFlight(s.link, s.conn.value.queue, s.conn.value.wire)
  {
    hide SP.Spool.Inv, MI.Mirror.Inv, Sound, StreamOk, LogOf, LowOf, Lossless, InFlight, AllSent;
  }

  // ---- what is committed stays committed ----

  predicate Extends(ss: seq<MI.Session>, tt: seq<MI.Session>) {
    && |ss| <= |tt|
    && forall k :: 0 <= k < |ss| ==>
         && tt[k].start == ss[k].start && ss[k].recs <= tt[k].recs
         && (ss[k].epoch.Some? ==> tt[k].epoch == ss[k].epoch)
         && (k < |ss| - 1 ==> tt[k] == ss[k])
  }

  /** Finished sessions are the same records in the same, untouched files. */
  predicate KeepsPast(m: MI.Mirror, n: MI.Mirror) {
    && m.past <= n.past
    && forall k :: 0 <= k < |m.past| && k in m.files ==> k in n.files && n.files[k] == m.files[k]
  }

  predicate Kept(s: System, t: System) {
    Extends(s.Sessions(), t.Sessions()) && KeepsPast(s.mirror, t.mirror)
  }

  lemma SessionsCount(m: MI.Mirror)
    requires m.Inv()
    ensures |m.past| == m.saved.session && (m.pc.Rotating? ==> m.pc.next.session == |m.past| + 1)
  {
  }

  lemma CollectorExtends(s: System, mv: Move, t: System)
    requires s.Inv() && s.conn.Some? && (HelloStep(s, mv, t) || MessageStep(s, mv, t))
    ensures Kept(s, t)
  {
    hide SP.Spool.Inv, MI.Mirror.Inv, LogOf, LowOf, Sound, TailOk, RefreshOk, HeldOk, StreamOk, WireOk, Lossless,
      System.ServeOk, System.QueueOk, EncodeAll, MI.OpenSession, EncodeGlobalHeader;
    SessionsCount(s.mirror);
  }

  /** One step keeps every session, record for record; only the newest grows, and finished files do not change. */
  lemma StepExtends(s: System, mv: Move, t: System)
    requires s.Inv() && Step(s, mv, t)
    ensures t.Inv() && Kept(s, t)
  {
    hide System.Inv, SP.Spool.Inv, SP.Step, SP.Init, MI.Mirror.Inv, ServeStep, HelloStep, MessageStep,
      MI.OpenSession, ReadFrame, DX.Meaning;
    StepKeeps(s, mv, t);
    match mv
    case MStart(gh) =>
      StartKeeps(s, gh, t);
      MirrorOk(s);
      SessionsCount(s.mirror);
    case MCrash =>
    case MSpool(_) =>
    case MWipe(_) =>
    case MConnect =>
    case MCut(_) =>
    case MDrop =>
    case MTake =>
    case MSource | MHeader | MList | MLoad | MPoint(_) | MOpen(_) | MRead(_) | MFlush(_) | MLost | MBeat(_, _, _) =>
    case MClear(_, _) | MReheader | MHello(_) | MBatch | MSync | MSave | MGap(_) | MSwitch | MQuiet =>
      CollectorExtends(s, mv, t);
  }

  /**
   Once committed, always committed: whatever happens between two states of a run, each
   session of the earlier keeps its number, start, epoch and records in the later, and
   the files of finished sessions are never written again.
   */
  lemma {:induction false} CommittedForGood(run: seq<System>, moves: seq<Move>, i: nat, j: nat)
    requires IsRun(run, moves) && i <= j < |run|
    ensures Kept(run[i], run[j])
    decreases j
  {
    hide System.Inv, Step, Init, System.Sessions;
    if i < j {
      CommittedForGood(run, moves, i, j - 1);
      assert Step(run[j - 1], moves[j - 1], run[j - 1 + 1]);
      StepExtends(run[j - 1], moves[j - 1], run[j]);
    }
  }
}
