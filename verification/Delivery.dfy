/**
 The machine does deliver: from every reachable state whose spool is up, steps in which
 nothing crashes or is lost bring the commit point to the end of the log, unless serve
 takes a snaplen too small for it from the newest file's header.
 */
module Delivery {
  import opened Bytes
  import opened Pcap
  import opened Wire
  import opened Frames
  import opened Link
  import opened Recovery
  import opened Reader
  import opened Stream
  import opened History
  import opened System
  import opened ExactlyOnce
  import opened Paths
  import MI = Mirror
  import SP = Spool
  import DX = Demux

  // ---- the collector finishes what it is at ----

  /** t is s with the mirror further on and the connection c. */
  ghost predicate Onward(s: System, t: System, c: Option<Conn>) {
    && t.link == s.link && t.spools == s.spools && t.conn == c
    && t.mirror.pc == MI.Ready && t.mirror.saved.epoch == s.mirror.saved.epoch
  }

  lemma Syncs(s: System) returns (t: System)
    requires s.Inv() && s.mirror.pc.Wrote?
    ensures Leads(s, t, Serving) && t.Inv() && t == s.(mirror := t.mirror)
    ensures t.mirror.pc.Flushed? && t.mirror.saved == s.mirror.saved
  {
    hide System.Inv, MI.Mirror.Inv, SP.Spool.Inv, Leads;
    MirrorOk(s);
    t := s.(mirror := MI.AppendSync(s.mirror));
    Go(s, MSync, t, Serving);
  }

  lemma Saves(s: System) returns (t: System)
    requires s.Inv() && s.mirror.pc.Flushed?
    ensures s.conn.Some? && s.conn.value.hand.Some?
    ensures Leads(s, t, Serving) && t.Inv() && Onward(s, t, Some(Done(s.conn.value)))
  {
    hide System.Inv, MI.Mirror.Inv, SP.Spool.Inv, Leads;
    MirrorOk(s);
    t := s.(mirror := MI.AppendSave(s.mirror), conn := Some(Done(s.conn.value)));
    Go(s, MSave, t, Serving);
  }

  lemma Switches(s: System) returns (t: System)
    requires s.Inv() && s.mirror.pc.Rotating?
    ensures Leads(s, t, Serving) && t.Inv() && t == s.(mirror := t.mirror, conn := t.conn)
    ensures s.conn.Some? && t.mirror.pc == MI.Ready && t.mirror.saved == s.mirror.pc.next
    ensures t.Sessions() == s.Sessions() + [MI.Session(s.mirror.pc.next.epoch, s.mirror.pc.next.sessionStart, [])]
    ensures var c := s.conn.value;
            if c.greeting.Sent? then t.conn == Some(c.(greeting := Taken)) else c.hand.Some? && t.conn == Some(Done(c))
  {
    hide System.Inv, MI.Mirror.Inv, SP.Spool.Inv, Leads;
    MirrorOk(s);
    var c := s.conn.value;
    t := s.(mirror := MI.RotateSave(s.mirror),
            conn := Some(if c.greeting.Sent? then c.(greeting := Taken) else Done(c)));
    Go(s, MSwitch, t, Serving);
  }

  lemma Rewrites(s: System) returns (t: System)
    requires s.Inv() && s.mirror.pc.Rewriting?
    ensures Leads(s, t, Serving) && t.Inv() && t == s.(mirror := t.mirror) && t.mirror.pc == MI.Ready
  {
    hide System.Inv, MI.Mirror.Inv, SP.Spool.Inv, Leads, EncodeGlobalHeader;
    MirrorOk(s);
    t := s.(mirror := MI.Reheader(s.mirror));
    Go(s, MReheader, t, Serving);
  }

  lemma Drops(s: System) returns (t: System)
    requires s.Inv() && s.mirror.pc == MI.Ready
    ensures Leads(s, t, Serving) && t.Inv() && t == s.(conn := None)
  {
    hide System.Inv, MI.Mirror.Inv, SP.Spool.Inv, Leads;
    t := s.(conn := None);
    Go(s, MDrop, t, Serving);
  }

  /** A collector that is up can complete its durable operation; one that is not can be started. */
  lemma Finishes(s: System) returns (t: System)
    requires s.Inv()
    ensures Leads(s, t, Serving) && t.Inv()
    ensures t.link == s.link && t.spools == s.spools && t.conn == None && t.mirror.pc == MI.Ready
  {
    hide System.Inv, MI.Mirror.Inv, SP.Spool.Inv, Leads;
    if s.mirror.pc == MI.Off {
      t := Starts(s);
    } else {
      var u := s;
      Stays(s, Serving);
      if u.mirror.pc.Wrote? {
        u := Syncs(s);
      }
      if u.mirror.pc.Flushed? {
        var v := Saves(u);
        Then(s, u, v, Serving);
        u := v;
      } else if u.mirror.pc.Rotating? {
        u := Switches(s);
      } else if u.mirror.pc.Rewriting? {
        u := Rewrites(s);
      }
      t := Drops(u);
      Then(s, u, t, Serving);
    }
  }

  lemma Starts(s: System) returns (t: System)
    requires s.Inv() && s.mirror.pc == MI.Off
    ensures Leads(s, t, Serving) && t.Inv()
    ensures t.link == s.link && t.spools == s.spools && t.conn == None && t.mirror.pc == MI.Ready
    ensures t.mirror.saved == s.mirror.saved
  {
    hide System.Inv, MI.Mirror.Inv, SP.Spool.Inv, MI.Reopened, Leads;
    var gh := GlobalHeader(ENCODABLE, 1);
    MirrorOk(s);
    AnySnaplen(s, gh);
    t := s.(mirror := MI.Reopened(s.mirror, gh));
    Go(s, MStart(gh), t, Serving);
    StartKeeps(s, gh, t);
    ReopenedReady(s.mirror, gh);
  }

  lemma AnySnaplen(s: System, gh: GlobalHeader)
    requires s.Inv() && gh.snaplen == ENCODABLE
    ensures SnaplenOk(s, gh)
  {
    hide MI.Mirror.Inv, SP.Spool.Inv, System.QueueOk, System.ServeOk, System.PcOk, Sound, Lossless;
    if s.mirror.saved.epoch.Some? {
      CurrentFollows(s);
    }
  }

  // ---- the spool settles ----

  /** Idle, synced to the end of its log, and saying so. */
  predicate Published(sp: SP.Spool) {
    sp.Inv() && sp.pc == SP.Idle && sp.durable == |sp.log| && sp.headPtr == Some(sp.HeadNow())
  }

  /** The snaplen serve takes from the newest file, 0 where it finds no header. */
  function HeaderSnaplen(sp: SP.Spool): u32 {
    if sp.files == [] then 0
    else match ParseGlobalHeader(sp.files[|sp.files| - 1])
      case None => 0
      case Some(h) => h.snaplen
  }

  /** Serve can read every packet from p on. */
  predicate FitsFrom(sp: SP.Spool, p: nat) {
    forall g :: p <= g < |sp.log| ==> Fits(sp.log[g], HeaderSnaplen(sp))
  }

  function WithSpool(s: System, sp: SP.Spool): System
    requires s.spools != []
  {
    s.(spools := s.spools[|s.spools| - 1 := sp])
  }

  lemma SpoolGoes(s: System, a: SP.Act, sp: SP.Spool, ok: Move -> bool)
    requires s.Inv() && s.spools != [] && s.spools[|s.spools| - 1].Inv() && SP.Step(s.spools[|s.spools| - 1], a, sp)
    requires ok(MSpool(a))
    ensures Leads(s, WithSpool(s, sp), ok) && WithSpool(s, sp).Inv() && sp.Inv()
  {
    hide System.Inv, SP.Spool.Inv, SP.Step, Leads;
    SP.StepKeeps(s.spools[|s.spools| - 1], a, sp);
    Go(s, MSpool(a), WithSpool(s, sp), ok);
  }

  /** How far a spool that is up is from being idle. */
  function Rank(pc: SP.Pc): nat {
    match pc
    case Idle => 0
    case Opened => 1
    case Created => 2
    case Sealed => 3
    case Sealing => 4
    case Down => 5
  }

  /** The newest file, with its header, is what readers will find; otherwise a fresh one is on its way. */
  predicate HasNewest(pc: SP.Pc) { pc == SP.Idle || pc == SP.Opened }

  /** What becomes of the newest header while the writer finishes. */
  predicate SameHeader(was: SP.Spool, sp: SP.Spool) {
    if HasNewest(was.pc) then sp.files == was.files && sp.first == was.first && sp.starts == was.starts
    else HeaderSnaplen(sp) == sp.gh.snaplen
  }

  lemma {:induction false} Settles(s: System) returns (sp: SP.Spool)
    requires s.Inv() && s.spools != [] && s.spools[|s.spools| - 1].pc != SP.Down
    ensures var last := s.spools[|s.spools| - 1];
            && Leads(s, WithSpool(s, sp), Calm) && WithSpool(s, sp).Inv() && Published(sp)
            && sp.log == last.log && sp.gh == last.gh && sp.low == last.low && SameHeader(last, sp)
    decreases Rank(s.spools[|s.spools| - 1].pc)
  {
    hide System.Inv, SP.Spool.Inv, Leads, EncodeAll, EncodeGlobalHeader, HeaderSnaplen;
    SpoolsAre(s);
    var last := s.spools[|s.spools| - 1];
    ShapeOf(last);
    if last.pc == SP.Idle {
      var synced := SP.SyncData(last);
      SpoolGoes(s, SP.ASync, synced, Calm);
      var u := WithSpool(s, synced);
      ShapeOf(synced);
      sp := SP.Publish(synced);
      SpoolGoes(u, SP.APublish, sp, Calm);
      assert WithSpool(u, sp) == WithSpool(s, sp);
      Then(s, u, WithSpool(s, sp), Calm);
    } else {
      var a, next := NextAct(last);
      SpoolGoes(s, a, next, Calm);
      var u := WithSpool(s, next);
      sp := Settles(u);
      assert WithSpool(u, sp) == WithSpool(s, sp);
      Then(s, u, WithSpool(s, sp), Calm);
      if last.pc == SP.Created {
        SameFiles(next, sp);
      }
    }
  }

  lemma SameFiles(a: SP.Spool, b: SP.Spool)
    requires a.files == b.files
    ensures HeaderSnaplen(a) == HeaderSnaplen(b)
  {
  }

  lemma NextAct(sp: SP.Spool) returns (a: SP.Act, next: SP.Spool)
    requires sp.Inv() && sp.pc != SP.Down && sp.pc != SP.Idle
    ensures SP.Step(sp, a, next) && next.log == sp.log && next.gh == sp.gh && next.low == sp.low
    ensures Rank(next.pc) < Rank(sp.pc) && Calm(MSpool(a)) && next.pc != SP.Down
    ensures sp.pc == SP.Opened ==> next.files == sp.files && next.first == sp.first && next.starts == sp.starts
    ensures sp.pc == SP.Created ==> next.pc == SP.Opened && HeaderSnaplen(next) == sp.gh.snaplen
    ensures sp.pc == SP.Sealed || sp.pc == SP.Sealing ==> !HasNewest(next.pc)
  {
    hide EncodeAll, EncodeGlobalHeader, ParseGlobalHeader, SP.Spool.FilesOk, SP.Spool.ManifestOk, SP.Spool.HeadOk;
    match sp.pc
    case Opened => a, next := SP.APublish, SP.Publish(sp);
    case Created =>
      a, next := SP.AOpen, SP.Open(sp);
      HeaderRoundTrip(sp.gh, []);
      assert EncodeGlobalHeader(sp.gh) + [] == EncodeGlobalHeader(sp.gh);
    case Sealed => a, next := SP.ACreate([]), SP.Create(sp, []);
    case Sealing => a, next := SP.ASealSync, SP.SealSync(sp);
  }

  lemma SpoolsAre(s: System)
    requires s.Inv()
    ensures s.SpoolsOk() && s.spools[|s.spools| - 1].Inv()
  {
    hide MI.Mirror.Inv, SP.Spool.Inv, System.SessionsOk, System.QueueOk, System.ServeOk, System.PcOk, Lossless;
  }

  lemma ShapeOf(s: SP.Spool)
    requires s.Inv()
    ensures s.Shape()
  {
  }

  // ---- a connection opens ----

  function FullView(sp: SP.Spool): seq<Segment> { ViewOf(Nums(sp), Latest(sp.manifest), sp.headPtr) }

  /** Undisturbed, a refresh of a published spool sees all of it. */
  lemma SeesAll(sp: SP.Spool)
    requires Published(sp)
    ensures var v := FullView(sp);
            && |v| == |sp.files| && HoleFree(v) && OldestOf(v) == sp.starts[sp.first] && HeadOf(v) == |sp.log|
            && forall i :: 0 <= i < |v| ==> Claim(sp.DLog(), v[i]) && v[i].num == sp.first + i
  {
    hide SP.Spool.FilesOk, SP.Spool.ManifestOk, SP.Spool.HeadOk, SP.Later, Latest, EncodeAll, FitsAll, SP.Ascending,
      Claim, HoleFree;
    SP.LaterRefl(sp);
    RefreshSeesTrueChain(sp, sp, sp);
    var nums, n := Nums(sp), |sp.files| - 1;
    assert nums[n] == sp.Last();
    assert FullView(sp) == ViewOf(nums[..n], Latest(sp.manifest), sp.headPtr) + [sp.HeadNow()];
    OldView(sp, sp, sp, n);
  }

  /** In a hole-free view some entry owns every gpidx between its ends. */
  lemma {:induction false} Owned(v: seq<Segment>, g: nat) returns (i: nat)
    requires HoleFree(v) && OldestOf(v) <= g < HeadOf(v)
    ensures i < |v| && Owns(v[i], g)
  {
    i := |v| - 1;
    while g < v[i].start
      invariant i < |v| && g < v[i].end
      decreases i
    {
      i := i - 1;
    }
  }

  /** Every gpidx fits the wire. */
  predicate Nameable(s: System) {
    forall e :: 0 <= e < |s.spools| ==> |s.spools[e].log| < TWO64
  }

  lemma CommitNameable(s: System)
    requires s.Inv() && Nameable(s)
    ensures s.mirror.saved.committed < TWO64
  {
    hide MI.Mirror.Inv, SP.Spool.Inv, System.QueueOk, System.ServeOk, System.PcOk, Sound, Lossless, LogOf;
    UnderWay(s.mirror);
    if s.mirror.saved.epoch.Some? {
      CurrentFollows(s);
      LogInside(s.spools[s.mirror.saved.epoch.value]);
    }
  }

  lemma LogInside(sp: SP.Spool)
    requires sp.Inv()
    ensures |LogOf(sp)| <= |sp.log|
  {
    hide SP.Spool.FilesOk, SP.Spool.ManifestOk, SP.Spool.HeadOk;
  }

  /** A connection whose preamble is on its way, right after the reader was opened. */
  predicate Opening(c: Conn, sp: SP.Spool, n: nat, resume: nat) {
    var (from, reaped) := OpenAt(FullView(sp), resume);
    && c.epoch == n && c.live && c.greeting == Sent(from) && c.hand == None && c.view == FullView(sp)
    && c.source == Known(HeaderSnaplen(sp))
    && c.pos == from && c.batch == [] && !c.lost
    && c.queue == (if reaped then [Gap(resume, from)] else [])
  }

  /** A connection that has read the newest header, undisturbed. */
  lemma Sources(s: System) returns (t: System)
    requires s.Inv() && s.spools != [] && s.mirror.pc == MI.Ready && Published(s.spools[|s.spools| - 1])
    ensures Leads(s, t, Serving) && t.Inv()
    ensures t == s.(conn := Some(Dialled(s).(source := Known(HeaderSnaplen(s.spools[|s.spools| - 1])))))
  {
    hide System.Inv, MI.Mirror.Inv, SP.Spool.Inv, Leads, ParseGlobalHeader;
    var sp := s.spools[|s.spools| - 1];
    NewestHeader(sp);
    var c := Dialled(s);
    var s0 := s.(conn := Some(c));
    Go(s, MConnect, s0, Serving);
    var s1 := s.(conn := Some(c.(source := Newest(sp.Last()))));
    Go(s0, MSource, s1, Serving);
    Then(s, s0, s1, Serving);
    t := s.(conn := Some(c.(source := Known(HeaderSnaplen(sp)))));
    Go(s1, MHeader, t, Serving);
    Then(s, s1, t, Serving);
  }

  lemma NewestHeader(sp: SP.Spool)
    requires Published(sp)
    ensures sp.Shape() && ParseGlobalHeader(sp.File(sp.Last())).Some?
    ensures ParseGlobalHeader(sp.File(sp.Last())).value.snaplen == HeaderSnaplen(sp)
  {
    hide SP.Spool.ManifestOk, SP.Spool.HeadOk, EncodeAll, FitsAll, SP.Ascending;
  }

  /** And the first two reads of its refresh. */
  lemma Dials(s: System) returns (t: System)
    requires s.Inv() && s.spools != [] && s.mirror.pc == MI.Ready && Published(s.spools[|s.spools| - 1])
    ensures Leads(s, t, Serving) && t.Inv()
    ensures var sp := s.spools[|s.spools| - 1];
            t == s.(conn := Some(Dialled(s).(source := Known(HeaderSnaplen(sp)), refreshing := Loaded(sp, sp))))
  {
    hide System.Inv, MI.Mirror.Inv, SP.Spool.Inv, Leads, HeaderSnaplen;
    var sp := s.spools[|s.spools| - 1];
    var s0 := Sources(s);
    var c := s0.conn.value;
    var s1 := s.(conn := Some(c.(refreshing := Listed(sp))));
    Go(s0, MList, s1, Serving);
    Then(s, s0, s1, Serving);
    t := s.(conn := Some(c.(refreshing := Loaded(sp, sp))));
    Go(s1, MLoad, t, Serving);
    Then(s, s1, t, Serving);
  }

  lemma Connects(s: System) returns (t: System)
    requires s.Inv() && s.spools != [] && Nameable(s) && s.mirror.pc == MI.Ready && Published(s.spools[|s.spools| - 1])
    ensures Leads(s, t, Serving) && t.Inv() && t.conn.Some? && t == s.(conn := t.conn)
    ensures Opening(t.conn.value, s.spools[|s.spools| - 1], |s.spools| - 1, s.mirror.saved.committed)
  {
    hide System.Inv, MI.Mirror.Inv, SP.Spool.Inv, Leads, ViewOf, Latest, Nums, Sendable, FrameOf, EncodeFrame,
      HeaderSnaplen;
    var sp := s.spools[|s.spools| - 1];
    var u := Dials(s);
    OldestNameable(sp);
    CommitNameable(s);
    t := s.(conn := Some(Pointed(s.link, u.conn.value, sp.headPtr, 0)));
    Go(u, MPoint(0), t, Serving);
    Then(s, u, t, Serving);
  }

  lemma OldestNameable(sp: SP.Spool)
    requires Published(sp) && |sp.log| < TWO64
    ensures OldestOf(FullView(sp)) < TWO64
  {
    hide SP.Spool.FilesOk, SP.Spool.ManifestOk, SP.Spool.HeadOk, ViewOf, Latest;
    SeesAll(sp);
  }

  /** The collector handles the preamble. */
  lemma Greets(s: System) returns (t: System)
    requires s.Inv() && s.conn.Some? && s.conn.value.greeting.Sent? && s.mirror.pc == MI.Ready
    ensures Leads(s, t, Serving) && t.Inv()
    ensures t == s.(mirror := t.mirror, conn := Some(s.conn.value.(greeting := Taken)))
    ensures t.mirror.pc == MI.Ready && t.mirror.saved.epoch == Some(s.conn.value.epoch)
    ensures Realigns(s.mirror, s.conn.value.epoch) ==>
      && t.mirror.saved.committed == s.conn.value.greeting.from
      && t.Sessions() == s.Sessions() + [MI.Session(Some(s.conn.value.epoch), s.conn.value.greeting.from, [])]
    ensures !Realigns(s.mirror, s.conn.value.epoch) ==> t.mirror.saved.committed == s.mirror.saved.committed
  {
    hide System.Inv, MI.Mirror.Inv, SP.Spool.Inv, Leads, MI.OpenSession;
    var c, m := s.conn.value, s.mirror;
    var gh := GlobalHeader(ENCODABLE, 1);
    MirrorOk(s);
    if Realigns(m, c.epoch) {
      var u := s.(mirror := MI.RotateOpen(m, c.greeting.from, Some(c.epoch), gh));
      Go(s, MHello(gh), u, Serving);
      t := Switches(u);
      Then(s, u, t, Serving);
    } else {
      t := s.(mirror := if m.saved.epoch.None? then MI.Adopt(m, c.epoch) else m, conn := Some(c.(greeting := Taken)));
      Go(s, MHello(gh), t, Serving);
    }
  }

  // ---- messages are dealt with ----

  lemma Deals(s: System) returns (t: System)
    requires s.Inv() && s.conn.Some? && s.conn.value.hand.Some? && s.mirror.pc == MI.Ready
    ensures Leads(s, t, Serving) && t.Inv() && Onward(s, t, Some(Done(s.conn.value)))
  {
    hide System.Inv, MI.Mirror.Inv, SP.Spool.Inv, Leads;
    var c := s.conn.value;
    match c.hand.value.event
    case Batch(base, recs) => t := DealsBatch(s);
    case Gap(_, to) => t := DealsGap(s);
    case Quiet =>
      t := s.(conn := Some(Done(c)));
      Go(s, MQuiet, t, Serving);
  }

  lemma DealsGap(s: System) returns (t: System)
    requires s.Inv() && s.conn.Some? && s.conn.value.hand.Some? && s.mirror.pc == MI.Ready
    requires s.conn.value.hand.value.event.Gap?
    ensures Leads(s, t, Serving) && t.Inv() && Onward(s, t, Some(Done(s.conn.value)))
  {
    hide System.Inv, MI.Mirror.Inv, SP.Spool.Inv, Leads, MI.OpenSession, LogOf, LowOf, OverLinkAll, Sound,
      System.Sessions;
    var c, m := s.conn.value, s.mirror;
    MirrorOk(s);
    InHand(s);
    var gh, to := GlobalHeader(ENCODABLE, 1), c.hand.value.event.to;
    if to <= m.saved.committed {
      t := s.(conn := Some(Done(c)));
      Go(s, MGap(gh), t, Serving);
    } else {
      var u := s.(mirror := MI.RotateOpen(m, to, m.saved.epoch, gh));
      Go(s, MGap(gh), u, Serving);
      t := Switches(u);
      Then(s, u, t, Serving);
    }
  }

  lemma DealsBatch(s: System) returns (t: System)
    requires s.Inv() && s.conn.Some? && s.conn.value.hand.Some? && s.mirror.pc == MI.Ready
    requires s.conn.value.hand.value.event.Batch?
    ensures Leads(s, t, Serving) && t.Inv() && Onward(s, t, Some(Done(s.conn.value)))
  {
    hide System.Inv, MI.Mirror.Inv, SP.Spool.Inv, Leads, OverLinkAll, LogOf, LowOf, Sound, EncodeAll;
    var c, m := s.conn.value, s.mirror;
    MirrorOk(s);
    InHand(s);
    var e := c.hand.value.event;
    var keep := DX.Survivors(m.saved.committed, e.base, e.recs);
    if keep == [] {
      t := s.(conn := Some(Done(c)));
      Go(s, MBatch, t, Serving);
    } else {
      var s1 := s.(mirror := MI.AppendWrite(m, keep, c.hand.value.seqNo));
      Go(s, MBatch, s1, Serving);
      t := Stores(s1);
      Then(s, s1, t, Serving);
    }
  }

  lemma Stores(s: System) returns (t: System)
    requires s.Inv() && s.mirror.pc.Wrote? && s.conn.Some? && s.conn.value.hand.Some?
    ensures Leads(s, t, Serving) && t.Inv() && Onward(s, t, Some(Done(s.conn.value)))
  {
    hide System.Inv, MI.Mirror.Inv, SP.Spool.Inv, Leads;
    var u := Syncs(s);
    t := Saves(u);
    Then(s, u, t, Serving);
  }

  /** While serve is there, what it has queued can be read off the link, event by event. */
  lemma Takes(s: System) returns (t: System)
    requires s.Inv() && s.conn.Some? && s.mirror.pc == MI.Ready
    requires var c := s.conn.value; c.live && c.greeting.Taken? && c.hand.None? && c.queue != []
    ensures Leads(s, t, Serving) && t.Inv() && t.conn.Some? && t.conn.value.hand.Some?
    ensures var c, d := s.conn.value, t.conn.value;
            && t == s.(conn := Some(c.(hand := d.hand, wire := d.wire, queue := c.queue[1..])))
            && d.hand.value.event == Landed(c.queue[0])
  {
    hide System.Inv, MI.Mirror.Inv, SP.Spool.Inv, Leads, ReadFrame, DX.Meaning, Landed;
    var c := s.conn.value;
    HearsNext(s);
    var r := ReadFrame(s.link.crc, c.wire);
    var h := Message(Landed(c.queue[0]), r.frame.seqNo);
    t := s.(conn := Some(c.(hand := Some(h), wire := c.wire[r.used..], queue := c.queue[1..])));
    Go(s, MTake, t, Serving);
  }

  lemma HearsNext(s: System)
    requires s.Inv() && s.conn.Some? && s.conn.value.live && s.conn.value.queue != []
    ensures var c, r := s.conn.value, ReadFrame(s.link.crc, s.conn.value.wire);
            r.Got? && DX.Meaning(s.link.srcId, s.link.inflate, r.frame) == Some(Landed(c.queue[0]))
  {
    hide System.Inv, SP.Spool.Inv, ReadFrame, DX.Meaning, Landed, TailOk, LogOf, LowOf, Flows, AllSent, InFlight;
    LiveFacts(s);
    OnTheWire(s);
    Hears(s.link, s.conn.value.queue, s.conn.value.wire);
  }

  lemma {:induction false} Drains(s: System) returns (t: System)
    requires s.Inv() && s.conn.Some? && s.mirror.pc == MI.Ready
    requires var c := s.conn.value; c.live && c.greeting.Taken? && c.hand.None?
    ensures Leads(s, t, Serving) && t.Inv() && t.conn.Some?
    ensures var c, d := s.conn.value, t.conn.value;
            Onward(s, t, Some(c.(queue := [], at := d.at, wire := d.wire))) && d.at == Tip(c.at, c.queue)
    decreases |s.conn.value.queue|
  {
    hide System.Inv, MI.Mirror.Inv, SP.Spool.Inv, Leads;
    var c := s.conn.value;
    if c.queue == [] {
      Stays(s, Serving);
      t := s;
    } else {
      var u := Takes(s);
      var v := Deals(u);
      Then(s, u, v, Serving);
      t := Drains(v);
      Then(s, v, t, Serving);
    }
  }

  // ---- packets get through ----

  /** The link carries any one packet of the snaplen by itself. */
  ghost predicate Roomy(l: Channel, snaplen: u32) {
    forall g: nat, r :: g < TWO64 && Fits(r, snaplen) ==> Sendable(l, Plain(Batch(g, [r]), 0))
  }

  /** Uncompressed, that is so whenever the snaplen and 22 bytes are within the cap. */
  lemma UncompressedIsRoomy(l: Channel, snaplen: u32)
    requires !l.compress && snaplen + 22 <= MAX_PAYLOAD_LEN
    ensures Roomy(l, snaplen)
  {
    hide EncodePkt;
    forall g: nat, r | g < TWO64 && Fits(r, snaplen) ensures Sendable(l, Plain(Batch(g, [r]), 0)) {
      var ps := ToWireAll([r]);
      assert ps[1..] == [];
      assert |EncodePkts(ps)| == 20 + |r.data|;
    }
  }

  /** Serve and the collector are in step, and the reader has the whole spool in view. */
  ghost predicate InStep(s: System, sp: SP.Spool) {
    && s.Inv() && s.spools != [] && sp == s.spools[|s.spools| - 1] && Published(sp)
    && s.mirror.pc == MI.Ready && s.conn.Some?
    && var c := s.conn.value;
       && c.live && c.greeting.Taken? && c.hand.None? && c.queue == [] && c.batch == [] && !c.lost
       && c.view == FullView(sp) && OldestOf(c.view) <= c.pos && c.source == Known(HeaderSnaplen(sp))
  }

  /** In step, everything read has been committed. */
  lemma InStepCommits(s: System, sp: SP.Spool)
    requires InStep(s, sp)
    ensures var c, m := s.conn.value, s.mirror;
            && c.pos == c.at <= m.saved.committed <= |sp.log| && m.saved.epoch == Some(|s.spools| - 1)
  {
    hide SP.Spool.Inv, MI.Mirror.Inv, Sound, WireOk, TrueView, RefreshOk, HeldOk, Lossless, FullView, OverLinkAll;
    LiveFacts(s);
    CurrentFollows(s);
    LogIsAll(sp);
  }

  lemma LogIsAll(sp: SP.Spool)
    requires Published(sp)
    ensures LogOf(sp) == sp.log
  {
    hide SP.Spool.FilesOk, SP.Spool.ManifestOk, SP.Spool.HeadOk;
  }

  /** A published spool can be read at any gpidx its view holds, if the packet fits the reader's snaplen. */
  lemma Readable(sp: SP.Spool, held: Option<Held>, snaplen: u32, g: nat) returns (i: nat)
    requires Published(sp) && OldestOf(FullView(sp)) <= g < |sp.log| && Fits(sp.log[g], snaplen)
    ensures var v := FullView(sp); i < |v| && Owns(v[i], g) && ReadAt(sp, held, snaplen, v[i], g) == Some(sp.log[g])
  {
    hide SP.Spool.FilesOk, SP.Spool.ManifestOk, SP.Spool.HeadOk, FullView, TrueView, Claim, ReadIn, SP.Later,
      SP.Ascending;
    SeesAll(sp);
    LogIsAll(sp);
    var v := FullView(sp);
    i := Owned(v, g);
    var e := v[i];
    SP.LaterRefl(sp);
    assert Within(WorldOf(sp), e) by { EntryInside(sp, i); }
    FileBacks(sp, e);
    ReadsIn(sp, e, sp.File(e.num), g, snaplen);
  }

  lemma EntryInside(sp: SP.Spool, i: nat)
    requires Published(sp) && i < |FullView(sp)| && FullView(sp)[i].start < FullView(sp)[i].end && SP.Later(sp, sp)
    ensures Within(WorldOf(sp), FullView(sp)[i])
  {
    hide SP.Spool.FilesOk, SP.Spool.ManifestOk, SP.Spool.HeadOk, SP.Later, Within, ViewOf, Latest;
    EntryWithin(sp, sp, sp, i);
  }

  /** One packet more: read, sent alone, taken off the link, committed. */
  lemma Round(s: System, sp: SP.Spool) returns (t: System)
    requires InStep(s, sp) && Roomy(s.link, sp.gh.snaplen) && |sp.log| < TWO64 && s.conn.value.pos < |sp.log|
    requires Fits(sp.log[s.conn.value.pos], HeaderSnaplen(sp))
    ensures Leads(s, t, Serving) && InStep(t, sp) && t.spools == s.spools && t.link == s.link
    ensures t.conn.value.pos == s.conn.value.pos + 1
  {
    hide System.Inv, SP.Spool.Inv, MI.Mirror.Inv, Leads, FullView, ReadAt, Roomy, Sendable, FrameOf, EncodeFrame,
      Published, HeaderSnaplen;
    var c := s.conn.value;
    var i := Readable(sp, c.held, c.source.snaplen, c.pos);
    var r := sp.log[c.pos];
    var c1 := c.(batch := [r], pos := c.pos + 1);
    var s1 := s.(conn := Some(c1));
    assert [] + [r] == [r];
    PublishedIs(sp);
    Go(s, MRead(i), s1, Serving);
    var p := Plain(Batch(c.pos, [r]), 0);
    RoomFor(s.link, sp, c.pos);
    var c2 := Send(s.link, c1, p).(batch := []);
    var s2 := s.(conn := Some(c2));
    Go(s1, MFlush(0), s2, Serving);
    Then(s, s1, s2, Serving);
    t := Drains(s2);
    Then(s, s2, t, Serving);
  }

  lemma PublishedIs(sp: SP.Spool)
    requires Published(sp)
    ensures sp.Inv()
  {
  }

  lemma RoomFor(l: Channel, sp: SP.Spool, g: nat)
    requires Published(sp) && Roomy(l, sp.gh.snaplen) && g < |sp.log| < TWO64
    ensures Sendable(l, Plain(Batch(g, [sp.log[g]]), 0))
  {
    hide SP.Spool.FilesOk, SP.Spool.ManifestOk, SP.Spool.HeadOk, Sendable, Fits;
  }

  lemma {:induction false} Rounds(s: System, sp: SP.Spool) returns (t: System)
    requires InStep(s, sp) && Roomy(s.link, sp.gh.snaplen) && |sp.log| < TWO64 && FitsFrom(sp, s.conn.value.pos)
    ensures Leads(s, t, Serving) && InStep(t, sp) && t.spools == s.spools && t.link == s.link
    ensures t.mirror.saved.epoch == Some(|t.spools| - 1) && t.mirror.saved.committed == |sp.log|
    decreases |sp.log| - s.conn.value.pos
  {
    hide InStep, Roomy, Leads, System.Inv, SP.Spool.Inv, HeaderSnaplen;
    InStepCommits(s, sp);
    InStepConn(s, sp);
    if s.conn.value.pos == |sp.log| {
      Stays(s, Serving);
      t := s;
    } else {
      var u := Round(s, sp);
      t := Rounds(u, sp);
      Then(s, u, t, Serving);
    }
  }

  lemma InStepConn(s: System, sp: SP.Spool)
    requires InStep(s, sp)
    ensures s.conn.Some?
  {
    hide System.Inv, Published;
  }

  /** The newest spool's whole log is committed, in its epoch. */
  predicate AllCommitted(s: System) {
    && s.spools != [] && s.mirror.saved.epoch == Some(|s.spools| - 1)
    && s.mirror.saved.committed == |s.spools[|s.spools| - 1].log|
  }

  /** Where a connection to this spool would start. */
  function StartPos(s: System): nat
    requires s.spools != []
  {
    OpenAt(FullView(s.spools[|s.spools| - 1]), s.mirror.saved.committed).0
  }

  /** From a settled spool and a collector that is up, everything gets through that serve can read. */
  lemma Delivers(s: System) returns (t: System)
    requires s.Inv() && s.spools != [] && Nameable(s) && s.mirror.pc == MI.Ready
    requires var sp := s.spools[|s.spools| - 1];
             Published(sp) && Roomy(s.link, sp.gh.snaplen) && FitsFrom(sp, StartPos(s))
    ensures Leads(s, t, Serving) && t.Inv() && t.spools == s.spools && t.link == s.link && AllCommitted(t)
  {
    hide System.Inv, SP.Spool.Inv, MI.Mirror.Inv, Leads, FullView, Published, Roomy, HeaderSnaplen;
    var sp := s.spools[|s.spools| - 1];
    var a := Connects(s);
    var b := Greets(a);
    Then(s, a, b, Serving);
    var c := Drains(b);
    Then(s, b, c, Serving);
    assert InStep(c, sp);
    t := Rounds(c, sp);
    Then(s, c, t, Serving);
  }

  /**
   Serve's snaplen is no obstacle: the newest header is large enough for every packet on
   disk, or the writer is about to write a fresh one.
   */
  predicate Servable(sp: SP.Spool)
    requires sp.Shape()
  {
    HasNewest(sp.pc) ==> FitsFrom(sp, sp.starts[sp.first])
  }

  /** Where no crash has left a foreign header, that is so. */
  lemma OwnHeadersServe(sp: SP.Spool)
    requires sp.Inv() && SP.HeadersOk(sp)
    ensures Servable(sp)
  {
    hide SP.Spool.ManifestOk, SP.Spool.HeadOk, EncodeAll, SP.Ascending;
    if HasNewest(sp.pc) {
      assert HeaderOk(sp.File(sp.Last())) && SP.HeaderOwn(sp.files[|sp.files| - 1], sp.gh);
    }
  }

  lemma ServableSettles(last: SP.Spool, sp: SP.Spool)
    requires last.Inv() && Servable(last) && Published(sp) && sp.log == last.log && sp.gh == last.gh
      && SameHeader(last, sp)
    ensures FitsFrom(sp, sp.starts[sp.first])
  {
    hide SP.Spool.FilesOk, SP.Spool.ManifestOk, SP.Spool.HeadOk, HeaderSnaplen;
    if HasNewest(last.pc) {
      SameFiles(last, sp);
    }
  }

  /** Whatever is under way, a spool that is up can get its whole log committed. */
  lemma GetsThrough(s: System) returns (t: System)
    requires s.Inv() && s.spools != [] && Nameable(s)
    requires var sp := s.spools[|s.spools| - 1];
             && sp.Shape() && sp.pc != SP.Down && Roomy(s.link, sp.gh.snaplen) && Servable(sp)
    ensures Leads(s, t, Calm) && t.Inv() && |t.spools| == |s.spools| && t.link == s.link && AllCommitted(t)
    ensures t.spools[|s.spools| - 1].log == s.spools[|s.spools| - 1].log
    ensures t.spools[..|s.spools| - 1] == s.spools[..|s.spools| - 1]
    ensures t.spools[|s.spools| - 1].durable == |s.spools[|s.spools| - 1].log|
  {
    hide System.Inv, SP.Spool.Inv, MI.Mirror.Inv, Leads, Roomy, FullView, HeaderSnaplen, Servable, SameHeader, FitsFrom;
    var a := Finishes(s);
    Widen(s, a, Serving, Calm);
    var sp := Settles(a);
    var b := WithSpool(a, sp);
    Then(s, a, b, Calm);
    SpoolsAre(s);
    ServableSettles(s.spools[|s.spools| - 1], sp);
    StartsInside(sp, b.mirror.saved.committed);
    t := Delivers(b);
    Widen(b, t, Serving, Calm);
    Then(s, b, t, Calm);
  }

  lemma StartsInside(sp: SP.Spool, resume: nat)
    requires Published(sp) && FitsFrom(sp, sp.starts[sp.first])
    ensures FitsFrom(sp, OpenAt(FullView(sp), resume).0)
  {
    hide SP.Spool.FilesOk, SP.Spool.ManifestOk, SP.Spool.HeadOk, FullView, HeaderSnaplen;
    SeesAll(sp);
  }

  /**
   No reachable state is stuck. Every run that ends with the newest spool up, whatever its
   writer, its reader, the link and the collector are in the middle of, can be continued,
   without a crash and with nothing written or reaped, until the collector has committed
   that spool's log to the end in its epoch: provided that serve's snaplen is no obstacle.
   Stall.DeliveryIff shows that this proviso is needed.
   */
  lemma EverythingGetsThrough(run: seq<System>, moves: seq<Move>) returns (run': seq<System>, moves': seq<Move>)
    requires IsRun(run, moves) && Nameable(run[|moves|])
    requires var s := run[|moves|];
             && s.spools != [] && s.spools[|s.spools| - 1].Shape() && s.spools[|s.spools| - 1].pc != SP.Down
             && Servable(s.spools[|s.spools| - 1]) && Roomy(s.link, s.spools[|s.spools| - 1].gh.snaplen)
    ensures IsRun(run', moves') && run <= run' && moves <= moves'
    ensures forall i :: |moves| <= i < |moves'| ==> Calm(moves'[i])
    ensures var s, t := run[|moves|], run'[|moves'|];
            && |t.spools| == |s.spools| && t.spools[|t.spools| - 1].log == s.spools[|s.spools| - 1].log
            && t.spools[|t.spools| - 1].durable == |t.spools[|t.spools| - 1].log| && AllCommitted(t)
  {
    hide System.Inv, SP.Spool.Inv, MI.Mirror.Inv, Leads, Roomy, Step, Init, Lossless, Servable;
    RunKeepsInv(run, moves, |moves|);
    var t := GetsThrough(run[|moves|]);
    run', moves' := Prolongs(run, moves, t, Calm);
  }

  /** And a spool that is down comes up again, with all that was durable, if its disk is anchored. */
  lemma ComesUp(run: seq<System>, moves: seq<Move>) returns (run': seq<System>, moves': seq<Move>)
    requires IsRun(run, moves)
    requires var s := run[|moves|]; s.spools != [] && SP.CanRecover(s.spools[|s.spools| - 1])
    ensures IsRun(run', moves') && run <= run' && moves <= moves'
    ensures var s, t := run[|moves|], run'[|moves'|];
            && |t.spools| == |s.spools| && t.spools[|t.spools| - 1].pc != SP.Down
            && s.spools[|s.spools| - 1].log <= t.spools[|t.spools| - 1].log
  {
    hide System.Inv, SP.Spool.Inv, MI.Mirror.Inv, Leads, Step, Init, Lossless, IsChain, Latest, ScanFile, Repair;
    RunKeepsInv(run, moves, |moves|);
    var s := run[|moves|];
    SpoolsAre(s);
    var sp := s.spools[|s.spools| - 1];
    var a, up := Recovered(sp);
    SpoolGoes(s, a, up, AnyMove);
    run', moves' := Prolongs(run, moves, WithSpool(s, up), AnyMove);
  }

  lemma Recovered(sp: SP.Spool) returns (a: SP.Act, up: SP.Spool)
    requires sp.Inv() && SP.CanRecover(sp)
    ensures SP.Step(sp, a, up) && up.pc != SP.Down && sp.log <= up.log
  {
    hide SP.Spool.Inv, IsChain, SP.AfterRecovery;
    SP.RecoverySucceeds(sp);
    var segs :| IsChain(SP.Listing(sp), Latest(sp.manifest), sp.gh.snaplen, segs);
    RecoveredUp(sp, segs);
    a, up := SP.ARecover(segs), SP.AfterRecovery(sp, segs);
  }

  lemma RecoveredUp(sp: SP.Spool, segs: seq<Segment>)
    requires sp.Inv() && SP.CanRecover(sp) && IsChain(SP.Listing(sp), Latest(sp.manifest), sp.gh.snaplen, segs)
    ensures |segs| == |sp.files| && SP.AfterRecovery(sp, segs).pc != SP.Down && sp.log <= SP.AfterRecovery(sp, segs).log
  {
    hide SP.Spool.FilesOk, SP.Spool.ManifestOk, SP.Spool.HeadOk, IsChain, Latest, SP.Listing, ScanFile, Repair,
      FitsAll, SP.Ascending, EncodeAll;
    SP.RecoveredRanges(sp, segs);
    if sp.sealed == sp.Last() {
      SP.RecoverActiveKeeps(sp, segs);
    }
  }
}
