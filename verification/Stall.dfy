/**
 When delivery stalls. Serve takes its snaplen from the header of the newest file, and a
 crash can leave a header there that no one wrote. A packet over that snaplen ends every
 connection that comes to it.
 */
module Stall {
  import opened Bytes
  import opened Pcap
  import opened Wire
  import opened Frames
  import opened Link
  import opened Reader
  import opened Stream
  import opened History
  import opened System
  import opened ExactlyOnce
  import opened Paths
  import opened Delivery
  import MI = Mirror
  import SP = Spool
  import DX = Demux

  /** Handling e moves the commit point no further than g. */
  predicate Below(e: Event, g: nat) {
    match e
    case Batch(base, recs) => base + |recs| <= g
    case Gap(_, to) => to <= g
    case Quiet => true
  }

  predicate AllBelow(evs: seq<Event>, g: nat) {
    forall i :: 0 <= i < |evs| ==> Below(evs[i], g)
  }

  /** Packet g is on disk and too long for the newest header; a collector at c0 would have to take it. */
  predicate StuckAt(sp: SP.Spool, g: nat, c0: nat) {
    && Published(sp) && g < |sp.log| && !Fits(sp.log[g], HeaderSnaplen(sp))
    && OldestOf(FullView(sp)) <= g && OpenAt(FullView(sp), c0).0 <= g
  }

  predicate MirrorBelow(m: MI.Mirror, n: nat, g: nat, c0: nat) {
    && (if m.saved.epoch == Some(n) then m.saved.committed <= g else m.saved.committed == c0)
    && (m.pc.Rotating? ==> m.pc.next.epoch == Some(n) && m.pc.next.committed <= g)
  }

  predicate ReaderBelow(c: Conn, sp: SP.Spool) {
    && (c.source.Newest? ==> c.source.num == |sp.starts| - 1)
    && (c.source.Known? ==> c.source.snaplen == HeaderSnaplen(sp))
    && (c.refreshing.Listed? ==> c.refreshing.s1 == sp)
    && (c.refreshing.Loaded? ==> c.refreshing.s1 == sp && c.refreshing.s2 == sp)
  }

  predicate ConnBelow(c: Conn, sp: SP.Spool, n: nat, g: nat) {
    && c.epoch == n && ReaderBelow(c, sp)
    && (c.greeting.Sent? ==> c.greeting.from <= g)
    && (!c.greeting.Unsent? ==> c.view == FullView(sp) && c.pos <= g)
    && AllBelow(c.queue, g) && (c.hand.Some? ==> Below(c.hand.value.event, g))
  }

  /** Nothing at or past g is committed, in hand, on the link or read. */
  ghost predicate Blocked(s: System, sp: SP.Spool, g: nat, c0: nat) {
    && s.Inv() && s.spools != [] && s.spools[|s.spools| - 1] == sp && StuckAt(sp, g, c0)
    && MirrorBelow(s.mirror, |s.spools| - 1, g, c0)
    && (s.conn.Some? ==> ConnBelow(s.conn.value, sp, |s.spools| - 1, g))
  }

  lemma OpensBelow(sp: SP.Spool, g: nat, c0: nat, resume: nat)
    requires StuckAt(sp, g, c0) && (resume <= g || resume == c0)
    ensures OpenAt(FullView(sp), resume).0 <= g
  {
    hide Published, FullView, HeaderSnaplen;
  }

  /** The reader never gets past g. */
  lemma ReadBelow(sp: SP.Spool, c: Conn, i: nat, g: nat, c0: nat)
    requires StuckAt(sp, g, c0) && sp.Inv() && HeldOk(c.held, sp) && TrueView(WorldOf(sp), c.view)
    requires c.source == Known(HeaderSnaplen(sp)) && i < |c.view| && Owns(c.view[i], c.pos) && c.pos <= g
    requires ReadAt(sp, c.held, c.source.snaplen, c.view[i], c.pos).Some?
    ensures c.pos < g
  {
    hide SP.Spool.Inv, HeldOk, TrueView, ReadAt, HeaderSnaplen, FullView;
    ReadsTruth(sp, c.held, c.source.snaplen, c.view, i, c.pos);
    LogIsAll(sp);
  }

  lemma AllBelowSnoc(evs: seq<Event>, e: Event, g: nat)
    requires AllBelow(evs, g) && Below(e, g)
    ensures AllBelow(evs + [e], g)
  {
  }

  /** The end of a refresh, whoever asked for it. */
  lemma PointBelow(l: Channel, c: Conn, sp: SP.Spool, seqNo: u64, n: nat, g: nat, c0: nat)
    requires StuckAt(sp, g, c0) && ConnBelow(c, sp, n, g) && c.refreshing.Loaded?
    requires Below64(c, ViewAt(c.refreshing, sp.headPtr))
    requires c.greeting.Unsent? ==> c.greeting.resume <= g || c.greeting.resume == c0
    ensures ConnBelow(Pointed(l, c, sp.headPtr, seqNo), sp, n, g)
  {
    hide Published, HeaderSnaplen, Sendable, FrameOf, EncodeFrame, AllBelow;
    var d := Pointed(l, c, sp.headPtr, seqNo);
    assert d.view == FullView(sp);
    if c.greeting.Unsent? {
      OpensBelow(sp, g, c0, c.greeting.resume);
      AllBelowSnoc(c.queue, Gap(c.greeting.resume, d.pos), g);
    } else if c.lost {
      OpensBelow(sp, g, c0, c.pos);
      AllBelowSnoc(c.queue, Gap(c.pos, d.pos), g);
    }
  }

  lemma ServeBelow(s: System, mv: Move, d: Conn, sp: SP.Spool, g: nat, c0: nat)
    requires Blocked(s, sp, g, c0) && s.conn.Some? && ServeStep(s.link, s.conn.value, sp, mv, d)
    ensures ConnBelow(d, sp, |s.spools| - 1, g)
  {
    hide System.Inv, SP.Spool.Inv, MI.Mirror.Inv, StuckAt, ServeStep, ConnBelow, LogOf, LowOf, Flows, HeldOk;
    Inside(sp, g, c0);
    LiveOnly(s, mv, d, sp);
    LiveFacts(s);
    TurnBelow(s.link, s.conn.value, sp, mv, d, |s.spools| - 1, g, c0);
  }

  lemma LiveOnly(s: System, mv: Move, d: Conn, sp: SP.Spool)
    requires s.conn.Some? && sp.Inv() && ServeStep(s.link, s.conn.value, sp, mv, d)
    ensures s.conn.value.live
  {
    hide SP.Spool.Inv, Pointed, ReadAt, Sendable, FrameOf, EncodeFrame, ParseGlobalHeader;
  }

  lemma TurnBelow(l: Channel, c: Conn, sp: SP.Spool, mv: Move, d: Conn, n: nat, g: nat, c0: nat)
    requires StuckAt(sp, g, c0) && sp.Inv() && ConnBelow(c, sp, n, g) && ServeStep(l, c, sp, mv, d)
    requires c.greeting.Unsent? ==> c.greeting.resume <= g || c.greeting.resume == c0
    requires HeldOk(c.held, sp) && (!c.greeting.Unsent? ==> TrueView(WorldOf(sp), c.view))
    ensures ConnBelow(d, sp, n, g)
  {
    hide SP.Spool.Inv, StuckAt, HeaderSnaplen, FullView, Pointed, ReadAt, Sendable, FrameOf, EncodeFrame, AllBelow,
      ParseGlobalHeader, TrueView, HeldOk;
    Inside(sp, g, c0);
    match mv
    case MSource =>
    case MHeader => HeaderIs(sp);
    case MList =>
    case MLoad =>
    case MPoint(seqNo) => PointBelow(l, c, sp, seqNo, n, g, c0);
    case MOpen(_) =>
    case MRead(i) => ReadBelow(sp, c, i, g, c0);
    case MFlush(_) => AllBelowSnoc(c.queue, Batch(c.pos - |c.batch|, c.batch), g);
    case MLost =>
    case MBeat(_, _, _) => AllBelowSnoc(c.queue, Quiet, g);
  }

  lemma HeaderIs(sp: SP.Spool)
    requires Published(sp)
    ensures sp.Shape() && ParseGlobalHeader(sp.File(sp.Last())).Some?
    ensures ParseGlobalHeader(sp.File(sp.Last())).value.snaplen == HeaderSnaplen(sp)
  {
    NewestHeader(sp);
  }

  /** A first contact finds an empty mirror. */
  lemma FirstContact(s: System)
    requires s.Inv() && s.mirror.saved.epoch == None
    ensures s.mirror.saved.committed == 0
  {
    hide SP.Spool.Inv, MI.Mirror.Inv, System.QueueOk, System.ServeOk, System.PcOk, Lossless;
    UnderWay(s.mirror);
  }

  lemma HelloBelow(s: System, mv: Move, t: System, sp: SP.Spool, g: nat, c0: nat)
    requires Blocked(s, sp, g, c0) && s.conn.Some? && HelloStep(s, mv, t)
    ensures MirrorBelow(t.mirror, |s.spools| - 1, g, c0) && t.conn.Some?
      && ConnBelow(t.conn.value, sp, |s.spools| - 1, g)
  {
    hide System.Inv, SP.Spool.Inv, MI.Mirror.Inv, StuckAt, AllBelow, HeaderSnaplen, FullView, MI.OpenSession,
      EncodeGlobalHeader;
    MirrorOk(s);
    if s.mirror.saved.epoch == None {
      FirstContact(s);
    }
  }

  lemma TakeBelow(s: System, t: System, sp: SP.Spool, g: nat, c0: nat)
    requires Blocked(s, sp, g, c0) && s.conn.Some? && TakeStep(s, t)
    ensures t.mirror == s.mirror && (t.conn.Some? ==> ConnBelow(t.conn.value, sp, |s.spools| - 1, g))
  {
    hide System.Inv, SP.Spool.Inv, MI.Mirror.Inv, StuckAt, HeaderSnaplen, FullView, ReadFrame, DX.Meaning, OverLinkAll;
    var c := s.conn.value;
    OnTheWire(s);
    Hears(s.link, c.queue, c.wire);
    assert Below(c.queue[0], g);
  }

  lemma MessageBelow(s: System, mv: Move, t: System, sp: SP.Spool, g: nat, c0: nat)
    requires Blocked(s, sp, g, c0) && s.conn.Some? && MessageStep(s, mv, t)
    ensures MirrorBelow(t.mirror, |s.spools| - 1, g, c0)
    ensures t.conn.Some? ==> ConnBelow(t.conn.value, sp, |s.spools| - 1, g)
  {
    hide System.Inv, SP.Spool.Inv, MI.Mirror.Inv, StuckAt, AllBelow, HeaderSnaplen, FullView, MI.OpenSession,
      OverLinkAll,
      LogOf, LowOf, Sound, EncodeAll;
    MirrorOk(s);
    InHand(s);
  }

  lemma StepBlocked(s: System, mv: Move, t: System, sp: SP.Spool, g: nat, c0: nat)
    requires Blocked(s, sp, g, c0) && Step(s, mv, t) && SpoolStill(mv)
    ensures Blocked(t, sp, g, c0)
  {
    hide System.Inv, SP.Spool.Inv, MI.Mirror.Inv, StuckAt, ConnBelow, MirrorBelow, ServeStep, HelloStep, TakeStep,
      MessageStep, MI.Reopened, MI.Crash;
    StepKeeps(s, mv, t);
    match mv
    case MConnect => DialBelow(s, sp, g);
    case MCut(n) => CutBelow(s.conn.value, t.conn.value, sp, |s.spools| - 1, g);
    case MDrop =>
    case MCrash => CrashBelow(s, t, g, c0);
    case MStart(gh) => StartBelow(s, gh, t, g, c0);
    case MSource | MHeader | MList | MLoad | MPoint(_) | MOpen(_) | MRead(_) | MFlush(_) | MLost | MBeat(_, _, _) =>
      ServeBelow(s, mv, t.conn.value, sp, g, c0);
    case MTake => TakeSame(s, t, sp, g, c0);
    case MClear(_, _) | MReheader | MHello(_) => HelloSame(s, mv, t, sp, g, c0);
    case MBatch | MSync | MSave | MGap(_) | MQuiet => MessageSame(s, mv, t, sp, g, c0);
    case MSwitch =>
      if HelloStep(s, mv, t) {
        HelloSame(s, mv, t, sp, g, c0);
      } else {
        MessageSame(s, mv, t, sp, g, c0);
      }
  }

  lemma DialBelow(s: System, sp: SP.Spool, g: nat)
    requires s.spools != []
    ensures ConnBelow(Dialled(s), sp, |s.spools| - 1, g)
  {
  }

  lemma CutBelow(c: Conn, d: Conn, sp: SP.Spool, n: nat, g: nat)
    requires ConnBelow(c, sp, n, g) && d == c.(live := d.live, wire := d.wire)
    ensures ConnBelow(d, sp, n, g)
  {
    hide HeaderSnaplen, FullView, AllBelow;
  }

  lemma CrashBelow(s: System, t: System, g: nat, c0: nat)
    requires s.Inv() && Step(s, MCrash, t) && s.spools != [] && MirrorBelow(s.mirror, |s.spools| - 1, g, c0)
    ensures MirrorBelow(t.mirror, |s.spools| - 1, g, c0)
  {
    hide System.Inv, SP.Spool.Inv, MI.Mirror.Inv;
    CrashKeeps(s, t);
  }

  lemma StartBelow(s: System, gh: GlobalHeader, t: System, g: nat, c0: nat)
    requires s.Inv() && Step(s, MStart(gh), t) && s.spools != [] && MirrorBelow(s.mirror, |s.spools| - 1, g, c0)
    ensures MirrorBelow(t.mirror, |s.spools| - 1, g, c0)
  {
    hide System.Inv, SP.Spool.Inv, MI.Mirror.Inv, MI.Reopened;
    MirrorOk(s);
    StartKeeps(s, gh, t);
    ReopenedReady(s.mirror, gh);
  }

  lemma TakeSame(s: System, t: System, sp: SP.Spool, g: nat, c0: nat)
    requires Blocked(s, sp, g, c0) && s.conn.Some? && TakeStep(s, t) && t.Inv()
    ensures Blocked(t, sp, g, c0)
  {
    hide System.Inv, SP.Spool.Inv, MI.Mirror.Inv, StuckAt, ConnBelow, MirrorBelow, ReadFrame, DX.Meaning;
    TakeBelow(s, t, sp, g, c0);
  }

  lemma HelloSame(s: System, mv: Move, t: System, sp: SP.Spool, g: nat, c0: nat)
    requires Blocked(s, sp, g, c0) && s.conn.Some? && HelloStep(s, mv, t) && t.Inv()
    ensures Blocked(t, sp, g, c0)
  {
    hide System.Inv, SP.Spool.Inv, MI.Mirror.Inv, StuckAt, ConnBelow, MirrorBelow;
    HelloBelow(s, mv, t, sp, g, c0);
  }

  lemma MessageSame(s: System, mv: Move, t: System, sp: SP.Spool, g: nat, c0: nat)
    requires Blocked(s, sp, g, c0) && s.conn.Some? && MessageStep(s, mv, t) && t.Inv()
    ensures Blocked(t, sp, g, c0)
  {
    hide System.Inv, SP.Spool.Inv, MI.Mirror.Inv, StuckAt, ConnBelow, MirrorBelow;
    MessageBelow(s, mv, t, sp, g, c0);
  }

  lemma {:induction false} PathBlocked(path: seq<System>, moves: seq<Move>, i: nat, sp: SP.Spool, g: nat, c0: nat)
    requires IsPath(path, moves) && i <= |moves| && Blocked(path[0], sp, g, c0)
    requires forall k :: 0 <= k < |moves| ==> SpoolStill(moves[k])
    ensures Blocked(path[i], sp, g, c0)
  {
    hide System.Inv, Step, Blocked;
    if i > 0 {
      PathBlocked(path, moves, i - 1, sp, g, c0);
      assert Step(path[i - 1], moves[i - 1], path[i - 1 + 1]);
      StepBlocked(path[i - 1], moves[i - 1], path[i], sp, g, c0);
    }
  }

  /** While the spool stays as it is, no connection gets the commit point past g. */
  lemma Stalls(s: System, t: System, g: nat)
    requires s.Inv() && s.spools != [] && s.conn == None && s.mirror.pc == MI.Ready
    requires StuckAt(s.spools[|s.spools| - 1], g, s.mirror.saved.committed) && StartPos(s) <= g
    requires Leads(s, t, SpoolStill)
    ensures !AllCommitted(t) && t.spools == s.spools
  {
    hide System.Inv, Step, StuckAt;
    var sp, c0 := s.spools[|s.spools| - 1], s.mirror.saved.committed;
    Inside(sp, g, c0);
    CommittedBefore(s, g);
    assert Blocked(s, sp, g, c0);
    var path: seq<System>, moves: seq<Move> :| Joins(path, moves, s, t, SpoolStill);
    PathBlocked(path, moves, |moves|, sp, g, c0);
    StillSpools(path, moves, |moves|);
  }

  lemma Inside(sp: SP.Spool, g: nat, c0: nat)
    requires StuckAt(sp, g, c0)
    ensures Published(sp) && g < |sp.log|
  {
  }

  /** In the epoch served, a connection starts no earlier than the commit point. */
  lemma CommittedBefore(s: System, g: nat)
    requires s.Inv() && s.spools != [] && Published(s.spools[|s.spools| - 1]) && StartPos(s) <= g
    ensures s.mirror.saved.epoch == Some(|s.spools| - 1) ==> s.mirror.saved.committed <= g
  {
    hide SP.Spool.Inv, MI.Mirror.Inv, System.QueueOk, System.ServeOk, System.PcOk, Sound, Lossless, FullView, LogOf,
      OverLinkAll;
    var sp := s.spools[|s.spools| - 1];
    if s.mirror.saved.epoch == Some(|s.spools| - 1) {
      CurrentFollows(s);
      LogIsAll(sp);
      SeesAll(sp);
    }
  }

  lemma {:induction false} StillSpools(path: seq<System>, moves: seq<Move>, i: nat)
    requires IsPath(path, moves) && i <= |moves| && forall k :: 0 <= k < |moves| ==> SpoolStill(moves[k])
    ensures path[i].spools == path[0].spools
  {
    hide System.Inv, Step;
    if i > 0 {
      StillSpools(path, moves, i - 1);
      assert Step(path[i - 1], moves[i - 1], path[i - 1 + 1]);
      StillSpool(path[i - 1], moves[i - 1], path[i]);
    }
  }

  lemma StillSpool(s: System, mv: Move, t: System)
    requires s.Inv() && Step(s, mv, t) && SpoolStill(mv)
    ensures t.spools == s.spools
  {
    hide System.Inv, SP.Spool.Inv, MI.Mirror.Inv, ServeStep, MI.Crash, MI.Reopened, ReadFrame, DX.Meaning;
  }

  /**
   When serve delivers. A settled spool and an idle collector, and nothing more written:
   some continuation commits the whole log if and only if every packet from where a
   connection starts fits the snaplen in the newest file's header.
   */
  lemma DeliveryIff(s: System)
    requires s.Inv() && s.spools != [] && Nameable(s) && s.conn == None && s.mirror.pc == MI.Ready
    requires var sp := s.spools[|s.spools| - 1]; Published(sp) && Roomy(s.link, sp.gh.snaplen)
    ensures (exists t :: Leads(s, t, SpoolStill) && AllCommitted(t)) <==> FitsFrom(s.spools[|s.spools| - 1],
      StartPos(s))
  {
    hide System.Inv, Step, Leads, AllCommitted, Roomy, Published, FullView, HeaderSnaplen;
    var sp := s.spools[|s.spools| - 1];
    if FitsFrom(sp, StartPos(s)) {
      var t := Delivers(s);
      Widen(s, t, Serving, SpoolStill);
    } else {
      var g :| StartPos(s) <= g < |sp.log| && !Fits(sp.log[g], HeaderSnaplen(sp));
      OpenAtOldest(sp, s.mirror.saved.committed);
      forall t | Leads(s, t, SpoolStill) ensures !AllCommitted(t) {
        Stalls(s, t, g);
      }
    }
  }

  lemma OpenAtOldest(sp: SP.Spool, resume: nat)
    ensures OldestOf(FullView(sp)) <= OpenAt(FullView(sp), resume).0
  {
    hide FullView;
  }

  // ---- a run that stalls ----

  /** Steps of the spool alone are steps of the system. */
  lemma {:induction false} Lifts(s: System, run: seq<SP.Spool>, acts: seq<SP.Act>, i: nat)
    requires s.Inv() && s.spools != [] && |run| == |acts| + 1 && i <= |acts| && s.spools[|s.spools| - 1] == run[0]
    requires forall k :: 0 <= k < |acts| ==> run[k].Inv() && SP.Step(run[k], acts[k], run[k + 1])
    ensures Leads(s, WithSpool(s, run[i]), AnyMove) && WithSpool(s, run[i]).Inv()
  {
    hide System.Inv, SP.Spool.Inv, SP.Step, Leads;
    if i == 0 {
      assert WithSpool(s, run[0]) == s;
      Stays(s, AnyMove);
    } else {
      Lifts(s, run, acts, i - 1);
      assert run[i - 1].Inv() && SP.Step(run[i - 1], acts[i - 1], run[i - 1 + 1]);
      var u := WithSpool(s, run[i - 1]);
      SpoolGoes(u, acts[i - 1], run[i], AnyMove);
      assert WithSpool(u, run[i]) == WithSpool(s, run[i]);
      Then(s, u, WithSpool(s, run[i]), AnyMove);
    }
  }

  /**
   A run that stalls: the packet is durable and published, the collector idle, and as long
   as nothing is written, reaped or wiped and the agent does not crash, no continuation
   commits it. The newest file holds a good header with snaplen 0, left by a crash.
   */
  lemma BogusHeaderStalls(l: Channel, gh: GlobalHeader, a: Record) returns (run: seq<System>, moves: seq<Move>)
    requires Lossless(l) && Fits(a, gh.snaplen) && a.data != []
    ensures IsRun(run, moves)
    ensures var s := run[|moves|];
            && s.Inv() && |s.spools| == 1 && Published(s.spools[0]) && s.spools[0].log == [a]
              && HeaderSnaplen(s.spools[0]) == 0
            && forall t :: Leads(s, t, SpoolStill) ==> !AllCommitted(t)
  {
    hide System.Inv, SP.Spool.Inv, MI.Mirror.Inv, SP.Step, Leads, Lossless, Step, AllCommitted, FullView,
      ParseGlobalHeader, EncodeGlobalHeader;
    var s0 := Init(l, gh);
    InitInv(l, gh);
    var s1 := Starts(s0);
    Widen(s0, s1, Serving, AnyMove);
    var steps, acts := SP.BogusHeader(gh, a);
    Lifts(s1, steps, acts, |acts|);
    var sp := steps[|acts|];
    var s := WithSpool(s1, sp);
    Then(s0, s1, s, AnyMove);
    HeaderRoundTrip(GlobalHeader(0, 1), []);
    assert EncodeGlobalHeader(GlobalHeader(0, 1)) + [] == EncodeGlobalHeader(GlobalHeader(0, 1));
    BogusStuck(s, sp, a);
    Begins(l, gh);
    run, moves := Prolongs([s0], [], s, AnyMove);
    forall t | Leads(s, t, SpoolStill) ensures !AllCommitted(t) {
      Stalls(s, t, 0);
    }
  }

  lemma BogusStuck(s: System, sp: SP.Spool, a: Record)
    requires s.Inv() && s.spools == [sp] && s.mirror.saved.committed == 0
    requires Published(sp) && sp.log == [a] && sp.starts[sp.first] == 0 && HeaderSnaplen(sp) == 0 && a.data != []
    ensures StuckAt(sp, 0, s.mirror.saved.committed) && StartPos(s) == 0
  {
    hide SP.Spool.FilesOk, SP.Spool.ManifestOk, SP.Spool.HeadOk, FullView, HeaderSnaplen, System.Inv;
    SeesAll(sp);
  }
}
