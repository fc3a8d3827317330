/** What an epoch change does: the mirror realigns to the start the new spool instance advertises. */
module Epochs {
  import opened Bytes
  import opened Pcap
  import opened Link
  import opened Recovery
  import opened Reader
  import opened History
  import opened System
  import opened ExactlyOnce
  import opened Paths
  import opened Delivery
  import MI = Mirror
  import SP = Spool

  /**
   The preamble of a new epoch, handled: a new session at the advertised start, all earlier sessions closed as
   they were.
   */
  lemma EpochChange(s: System, gh: GlobalHeader, u: System, t: System)
    requires s.Inv() && s.conn.Some? && Realigns(s.mirror, s.conn.value.epoch)
    requires Step(s, MHello(gh), u) && u.Inv() && Step(u, MSwitch, t)
    ensures var c := s.conn.value;
            && c.greeting.Sent? && t.mirror.saved.committed == c.greeting.from && t.mirror.saved.epoch == Some(c.epoch)
            && t.Sessions() == s.Sessions() + [MI.Session(Some(c.epoch), c.greeting.from, [])]
            && s.mirror.saved.epoch.value < c.epoch
  {
    hide SP.Spool.Inv, MI.Mirror.Inv, LogOf, LowOf, Sound, TailOk, RefreshOk, HeldOk, WireOk, StreamOk,
      MI.OpenSession, Lossless;
    UnderWay(u.mirror);
  }

  /**
   Where a new epoch starts, given the commit point of the old one and the fresh
   spool's view. Packets the fresh spool still retains are passed over exactly when
   the old commit point falls inside what it holds, above its oldest packet; a commit
   point past the fresh head starts at the oldest.
   */
  lemma RetainedSkippedIff(l: Channel, c: Conn, head: Option<Segment>, seqNo: u64)
    requires c.greeting.Unsent? && c.refreshing.Loaded? && c.queue == [] && Below64(c, ViewAt(c.refreshing, head))
    ensures var d, commit := Pointed(l, c, head, seqNo), c.greeting.resume;
            && d.greeting.Sent?
            && (d.greeting.from > OldestOf(d.view) <==> OldestOf(d.view) < commit <= HeadOf(d.view))
            && (d.greeting.from <= OldestOf(d.view) <==> d.greeting.from == OldestOf(d.view))
            && (commit > HeadOf(d.view) ==> d.greeting.from == OldestOf(d.view))
            && (d.queue != [] <==> commit < OldestOf(d.view))
  {
    hide ViewAt, FrameOf, Sendable;
  }

  /** A spool of one record, just written, whose header is its own. */
  lemma OneRecord(gh: GlobalHeader, a: Record) returns (sp: SP.Spool)
    requires Fits(a, gh.snaplen)
    ensures SP.Init(gh).Inv() && SP.Step(SP.Init(gh), SP.AWrite(a), sp) && sp.Inv() && Servable(sp)
    ensures sp.gh == gh && sp.pc == SP.Idle && sp.log == [a] && sp.starts == [0] && sp.first == 0 && sp.low == 0
  {
    hide EncodeRecord, EncodeGlobalHeader, EncodeAll, ParseGlobalHeader, SP.Spool.FilesOk, SP.Spool.ManifestOk,
      SP.Spool.HeadOk;
    SP.InitInv(gh);
    SP.WriteKeeps(SP.Init(gh), a);
    sp := SP.Write(SP.Init(gh), a);
    HeaderRoundTrip(gh, EncodeRecord(a));
  }

  /** One packet committed in the first epoch, then the agent wiped, and the first packet of the new spool written. */
  lemma Wiped(l: Channel, gh: GlobalHeader, a: Record, b: Record) returns (s: System)
    requires Lossless(l) && Roomy(l, gh.snaplen) && Fits(a, gh.snaplen) && Fits(b, gh.snaplen)
    ensures Leads(Init(l, gh), s, AnyMove) && s.Inv() && |s.spools| == 2 && s.mirror.pc == MI.Ready && s.conn == None
    ensures s.mirror.saved.epoch == Some(0) && s.mirror.saved.committed == 1 && Nameable(s)
    ensures var sp := s.spools[1]; Published(sp) && sp.log == [b] && sp.starts == [0] && sp.first == 0 && sp.low == 0
  {
    hide System.Inv, SP.Spool.Inv, MI.Mirror.Inv, Leads, Roomy, Lossless, Published, Servable, SP.Step, SP.Init;
    InitInv(l, gh);
    var s0 := Init(l, gh);
    var one := OneRecord(gh, a);
    SpoolGoes(s0, SP.AWrite(a), one, AnyMove);
    var s1 := WithSpool(s0, one);
    ShapeOf(one);
    var s2 := GetsThrough(s1);
    Widen(s1, s2, Calm, AnyMove);
    Then(s0, s1, s2, AnyMove);
    var s3 := Settled(s2);
    Then(s0, s2, s3, AnyMove);
    s := FreshSpool(s3, gh, b);
    Then(s0, s3, s, AnyMove);
  }

  /** The collector idle again, with what it had: a crash and a start. */
  lemma Settled(s: System) returns (t: System)
    requires s.Inv()
    ensures Leads(s, t, AnyMove) && t.Inv() && t == s.(conn := None, mirror := t.mirror) && t.mirror.pc == MI.Ready
    ensures t.mirror.saved == s.mirror.saved
  {
    hide System.Inv, MI.Mirror.Inv, SP.Spool.Inv, MI.Crash, MI.Reopened, Leads;
    var u := s.(conn := None, mirror := s.mirror.(pc := MI.Off));
    QuietCrash(s.mirror);
    Go(s, MCrash, u, AnyMove);
    var gh := GlobalHeader(ENCODABLE, 1);
    MirrorOk(u);
    AnySnaplen(u, gh);
    t := u.(mirror := MI.Reopened(u.mirror, gh));
    Go(u, MStart(gh), t, AnyMove);
    StartKeeps(u, gh, t);
    ReopenedReady(u.mirror, gh);
    Then(s, u, t, AnyMove);
  }

  lemma QuietCrash(m: MI.Mirror)
    ensures MI.Crash(m, m.(pc := MI.Off))
  {
  }

  /** A wiped agent, and one packet published in the new spool. */
  lemma FreshSpool(s: System, gh: GlobalHeader, b: Record) returns (t: System)
    requires s.Inv() && Fits(b, gh.snaplen) && s.conn == None
    ensures Leads(s, t, AnyMove) && t.Inv() && |t.spools| == |s.spools| + 1 && t.spools[..|s.spools|] == s.spools
    ensures t == s.(spools := t.spools)
    ensures var sp := t.spools[|s.spools|];
            Published(sp) && sp.log == [b] && sp.starts == [0] && sp.first == 0 && sp.low == 0
  {
    hide System.Inv, SP.Spool.Inv, MI.Mirror.Inv, Leads, Published, Servable, SP.Step, SP.Init;
    var u := s.(spools := s.spools + [SP.Init(gh)]);
    Go(s, MWipe(gh), u, AnyMove);
    var one := OneRecord(gh, b);
    SpoolGoes(u, SP.AWrite(b), one, AnyMove);
    var v := WithSpool(u, one);
    Then(s, u, v, AnyMove);
    var sp := Settles(v);
    t := WithSpool(v, sp);
    Widen(v, t, Calm, AnyMove);
    Then(s, v, t, AnyMove);
  }

  /**
   A run whose epoch change passes over a packet. The fresh spool holds its packet 0 and
   never drops it, yet the mirror, which had committed one packet of the old spool, goes on
   from 1: no session of the new epoch holds packet 0, nor ever will (SkippedForever).
   */
  lemma RealignmentSkips(l: Channel, gh: GlobalHeader, a: Record, b: Record)
    returns (run: seq<System>, moves: seq<Move>)
    requires Lossless(l) && Roomy(l, gh.snaplen) && Fits(a, gh.snaplen) && Fits(b, gh.snaplen)
    ensures IsRun(run, moves)
    ensures var s := run[|moves|];
            && s.Inv() && |s.spools| == 2 && s.Log(1) == [b] && s.Low(1) == 0
            && s.mirror.saved.epoch == Some(1) && s.mirror.saved.committed == 1
            && HeldNowhere(s, 1, 0)
            && var ss := s.Sessions();
               ss[|ss| - 1] == MI.Session(Some(1), 1, []) && |ss| > 1 && ss[|ss| - 2].epoch == Some(0)
  {
    hide System.Inv, SP.Spool.Inv, MI.Mirror.Inv, Leads, Roomy, Lossless, FullView, Step, Published;
    var s0 := Init(l, gh);
    var s := Wiped(l, gh, a, b);
    var sp := s.spools[1];
    var t := Connects(s);
    Widen(s, t, Serving, AnyMove);
    Then(s0, s, t, AnyMove);
    SeesAll(sp);
    var u := Greets(t);
    Widen(t, u, Serving, AnyMove);
    Then(s0, t, u, AnyMove);
    LogIsAll(sp);
    Begins(l, gh);
    run, moves := Prolongs([s0], [], u, AnyMove);
    OnlySession(u);
  }

  /** Right after the realignment no session of the new epoch holds anything. */
  lemma OnlySession(s: System)
    requires s.Inv() && s.mirror.saved.epoch.Some?
    requires var ss := s.Sessions(); |ss| > 1 && ss[|ss| - 1].recs == [] && ss[|ss| - 2].epoch != ss[|ss| - 1].epoch
    ensures forall g :: HeldNowhere(s, s.mirror.saved.epoch.value, g)
  {
    hide SP.Spool.Inv, MI.Mirror.Inv, LogOf, LowOf, System.QueueOk, System.ServeOk, System.PcOk, Lossless,
      TrueSession;
    var ss, e := s.Sessions(), s.mirror.saved.epoch;
    var logs, lows, n := LogsOf(s.spools), LowsOf(s.spools), |ss| - 1;
    assert Succeeds(lows, ss[n - 1], ss[n]);
    forall k | 0 <= k < n ensures ss[k].epoch != e {
      if k < n - 1 {
        Ordered(ss, logs, lows, k, n - 1);
      }
    }
  }

  /** Packets below an epoch's first session are in none of its sessions, in no later state of any run. */
  lemma SkippedForever(run: seq<System>, moves: seq<Move>, i: nat, j: nat, f: nat, k: nat, g: nat)
    requires IsRun(run, moves) && i <= j < |run| && run[i].mirror.saved.epoch.Some?
    requires f < |run[i].Sessions()| && k < |run[j].Sessions()|
    requires var ss := run[i].Sessions(); g < ss[f].start && (f == 0 || ss[f - 1].epoch != ss[f].epoch)
    requires run[j].Sessions()[k].epoch == run[i].Sessions()[f].epoch
    ensures !Contains(run[j].Sessions()[k], g)
  {
    hide SP.Spool.Inv, MI.Mirror.Inv, LogOf, LowOf, Step, Init, System.QueueOk, System.ServeOk, System.PcOk,
      Lossless;
    RunKeepsInv(run, moves, i);
    RunKeepsInv(run, moves, j);
    CommittedForGood(run, moves, i, j);
    var ss, tt := run[i].Sessions(), run[j].Sessions();
    assert TrueSession(LogsOf(run[i].spools), ss[f]);
    assert f > 0 ==> TrueSession(LogsOf(run[i].spools), ss[f - 1]);
    EpochStays(run[i], run[j]);
    SkippedForGood(tt, LogsOf(run[j].spools), LowsOf(run[j].spools), f, k, g);
  }

  lemma EpochStays(s: System, t: System)
    requires s.Inv() && t.Inv() && Kept(s, t) && s.mirror.saved.epoch.Some?
    ensures t.mirror.saved.epoch.Some?
  {
    hide SP.Spool.Inv, MI.Mirror.Inv, LogOf, LowOf, Sound, System.QueueOk, System.ServeOk, System.PcOk, Lossless;
    var ss := s.Sessions();
    assert ss[|ss| - 1] == Current(s.mirror);
  }
}
