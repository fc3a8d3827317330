/**
 The operations refine the system's steps: every pass of RunServe is a sequence of serve
 steps, and the collector's steps on one message come to the operation that handles it.
 */
module Refinement {
  import opened Bytes
  import opened Pcap
  import opened Wire
  import opened Frames
  import opened Link
  import opened Recovery
  import opened Reader
  import opened Stream
  import opened History
  import opened System
  import opened Paths
  import opened Delivery
  import SP = Spool
  import MI = Mirror
  import DX = Demux
  import SV = Serve

  function TailOf(c: Conn): SV.Tail { SV.Tail(c.view, c.pos, c.batch) }

  /** A serve process in its loop. */
  ghost predicate Looping(s: System) {
    && s.Inv() && s.spools != [] && s.conn.Some?
    && var c := s.conn.value;
       c.live && !c.greeting.Unsent? && !c.lost && c.source.Known?
  }

  /** From s to t the serve process went to p.tail and sent p.sent; nothing else has changed. */
  ghost predicate Did(s: System, t: System, p: SV.Pass) {
    && Looping(s) && Looping(t) && Leads(s, t, Serving) && t == s.(conn := t.conn)
    && var c, d := s.conn.value, t.conn.value;
       && TailOf(d) == p.tail && d.queue == c.queue + p.sent
       && d == c.(view := d.view, pos := d.pos, batch := d.batch, queue := d.queue, wire := d.wire,
                  refreshing := d.refreshing)
  }

  lemma DidThen(s: System, t: System, u: System, p: SV.Pass, q: SV.Pass)
    requires Did(s, t, p) && Did(t, u, q)
    ensures Did(s, u, SV.Pass(q.tail, p.sent + q.sent))
  {
    hide System.Inv, Leads;
    Then(s, t, u, Serving);
    assert s.conn.value.queue + p.sent + q.sent == s.conn.value.queue + (p.sent + q.sent);
  }

  lemma DidNothing(s: System)
    requires Looping(s)
    ensures Did(s, s, SV.Pass(TailOf(s.conn.value), []))
  {
    hide System.Inv, Leads;
    Stays(s, Serving);
  }

  /** One step of the serve process within its loop. */
  lemma Steps(s: System, mv: Move, d: Conn) returns (t: System)
    requires Looping(s) && Serving(mv) && s.spools[|s.spools| - 1].Inv()
    requires ServeStep(s.link, s.conn.value, s.spools[|s.spools| - 1], mv, d)
    ensures t == s.(conn := Some(d)) && t.Inv() && Leads(s, t, Serving)
  {
    hide System.Inv, ServeStep, SP.Spool.Inv, Leads;
    t := s.(conn := Some(d));
    ServeMove(s.link, s.conn.value, s.spools[|s.spools| - 1], mv, d);
    Go(s, mv, t, Serving);
  }

  /** Only the serve process's own moves are steps of it. */
  lemma ServeMove(l: Channel, c: Conn, sp: SP.Spool, mv: Move, d: Conn)
    requires sp.Inv() && ServeStep(l, c, sp, mv, d)
    ensures mv.MSource? || mv.MHeader? || mv.MList? || mv.MLoad? || mv.MPoint? || mv.MOpen? || mv.MRead? || mv.MFlush?
         || mv.MLost? || mv.MBeat?
  {
    hide SP.Spool.Inv, Pointed, ReadAt, Sendable, FrameOf, EncodeFrame, ParseGlobalHeader;
  }

  // ---- the pieces of a pass ----

  lemma Flushes(s: System) returns (t: System)
    requires Looping(s) && |s.conn.value.batch| <= s.conn.value.pos
    requires var c := s.conn.value; c.batch != [] ==> Sendable(s.link, Plain(Batch(c.pos - |c.batch|, c.batch), 0))
    ensures Did(s, t, SV.Flushed(TailOf(s.conn.value)))
  {
    hide System.Inv, SP.Spool.Inv, Leads, Sendable, FrameOf, EncodeFrame;
    var c := s.conn.value;
    SpoolsAre(s);
    if c.batch == [] {
      DidNothing(s);
      t := s;
    } else {
      t := Steps(s, MFlush(0), Send(s.link, c, Plain(Batch(c.pos - |c.batch|, c.batch), 0)).(batch := []));
    }
  }

  lemma Beats(s: System) returns (t: System)
    requires Looping(s)
    ensures Did(s, t, SV.Pass(TailOf(s.conn.value), [Quiet]))
  {
    hide System.Inv, SP.Spool.Inv, Leads, FrameOf, EncodeFrame;
    SpoolsAre(s);
    t := Steps(s, MBeat(0, DX.HEARTBEAT, []), Send(s.link, s.conn.value, Post(Quiet, 0, DX.HEARTBEAT, [])));
  }

  lemma Reads(s: System, i: nat) returns (t: System)
    requires Looping(s) && s.spools[|s.spools| - 1].Inv()
    requires var c := s.conn.value;
             && i < |c.view| && Owns(c.view[i], c.pos)
             && ReadAt(s.spools[|s.spools| - 1], c.held, c.source.snaplen, c.view[i], c.pos).Some?
    ensures var c := s.conn.value;
            var rec := ReadAt(s.spools[|s.spools| - 1], c.held, c.source.snaplen, c.view[i], c.pos).value;
            Did(s, t, SV.Pass(SV.Tail(c.view, c.pos + 1, c.batch + [rec]), []))
  {
    hide System.Inv, SP.Spool.Inv, Leads, ReadAt;
    var c := s.conn.value;
    var rec := ReadAt(s.spools[|s.spools| - 1], c.held, c.source.snaplen, c.view[i], c.pos).value;
    t := Steps(s, MRead(i), c.(batch := c.batch + [rec], pos := c.pos + 1));
  }

  /** The view a refresh begun earlier would give now, or the one at hand. */
  predicate CanSee(c: Conn, sp: SP.Spool, view: seq<Segment>) {
    view == c.view || (c.refreshing.Loaded? && view == ViewAt(c.refreshing, sp.headPtr))
  }

  lemma Looks(s: System, view: seq<Segment>) returns (t: System)
    requires Looping(s) && Nameable(s) && CanSee(s.conn.value, s.spools[|s.spools| - 1], view)
    ensures Did(s, t, SV.Pass(TailOf(s.conn.value).(view := view), []))
  {
    hide System.Inv, SP.Spool.Inv, Leads, ViewAt, Sendable, FrameOf, EncodeFrame;
    var c, sp := s.conn.value, s.spools[|s.spools| - 1];
    SpoolsAre(s);
    if view == c.view {
      DidNothing(s);
      t := s;
    } else {
      LoadedNameable(s);
      t := Steps(s, MPoint(0), c.(refreshing := Still, view := view));
    }
  }

  /** ErrReaped: a new reader over an undisturbed refresh, and the gap. */
  lemma Reopens(s: System) returns (t: System)
    requires Looping(s) && Nameable(s) && s.conn.value.batch == [] && s.conn.value.pos < OldestOf(s.conn.value.view)
    ensures var c, view := s.conn.value, FullView(s.spools[|s.spools| - 1]);
            var from := OpenAt(view, c.pos).0;
            Did(s, t, SV.Pass(SV.Tail(view, from, []), [Gap(c.pos, from)]))
  {
    hide System.Inv, SP.Spool.Inv, Leads, FullView, Sendable, FrameOf, EncodeFrame, ViewOf, Latest, Nums;
    var c, sp := s.conn.value, s.spools[|s.spools| - 1];
    SpoolsAre(s);
    var u := LosesAndLoads(s);
    var c2 := u.conn.value;
    LoadedNameable(u);
    FullIs(sp);
    var from := OpenAt(FullView(sp), c.pos).0;
    GapSendable(s.link, Plain(Gap(c.pos, from), 0));
    t := u.(conn := Some(Pointed(s.link, c2, sp.headPtr, 0)));
    Go(u, MPoint(0), t, Serving);
    Then(s, u, t, Serving);
  }

  lemma FullIs(sp: SP.Spool)
    ensures ViewAt(Loaded(sp, sp), sp.headPtr) == FullView(sp)
  {
  }

  lemma LosesAndLoads(s: System) returns (t: System)
    requires Looping(s) && s.conn.value.batch == [] && s.conn.value.pos < OldestOf(s.conn.value.view)
    ensures Leads(s, t, Serving) && t.Inv()
    ensures var sp := s.spools[|s.spools| - 1];
            t == s.(conn := Some(s.conn.value.(lost := true, refreshing := Loaded(sp, sp))))
  {
    hide System.Inv, SP.Spool.Inv, Leads;
    SpoolsAre(s);
    var c, sp := s.conn.value, s.spools[|s.spools| - 1];
    var a := Steps(s, MLost, c.(lost := true));
    var b := a.(conn := Some(c.(lost := true, refreshing := Listed(sp))));
    Go(a, MList, b, Serving);
    Then(s, a, b, Serving);
    t := b.(conn := Some(c.(lost := true, refreshing := Loaded(sp, sp))));
    Go(b, MLoad, t, Serving);
    Then(s, b, t, Serving);
  }

  lemma LoadedNameable(s: System)
    requires s.Inv() && s.spools != [] && s.conn.Some? && s.conn.value.live && !s.conn.value.greeting.Unsent?
    requires Nameable(s) && s.conn.value.refreshing.Loaded?
    ensures Below64(s.conn.value, ViewAt(s.conn.value.refreshing, s.spools[|s.spools| - 1].headPtr))
  {
    hide System.Inv, SP.Spool.Inv, ViewAt, TrueView, LogOf, LowOf, Flows, Tip, AllSent, HeldOk;
    LiveFacts(s);
    var sp := s.spools[|s.spools| - 1];
    PointedView(s.conn.value.refreshing, sp);
    LowInLog(sp);
    LogInside(sp);
  }

  // ---- a whole pass ----

  /**
   What the pass's reader said is what the machine's reader can say: the bytes it found, or a view that begins
   past it.
   */
  ghost predicate Truthful(s: System, r: Outcome, view: seq<Segment>, i: nat)
    requires s.spools != [] && s.spools[|s.spools| - 1].Inv() && s.conn.Some? && s.conn.value.source.Known?
  {
    var c, sp := s.conn.value, s.spools[|s.spools| - 1];
    && (r.Got? ==> && i < |view| && Owns(view[i], c.pos)
                   && ReadAt(sp, c.held, c.source.snaplen, view[i], c.pos) == Some(r.rec))
    && (r.Reaped? ==> c.pos < OldestOf(view))
  }

  /** What Reader.TailReader.Next returns is what the machine reads: the log record, from a file on disk. */
  lemma GotIsTruthful(s: System, r: Outcome, view: seq<Segment>, i: nat)
    requires Looping(s) && s.spools[|s.spools| - 1].Inv() && TrueView(WorldOf(s.spools[|s.spools| - 1]), view)
    requires var c, sp := s.conn.value, s.spools[|s.spools| - 1];
             && r.Got? && i < |view| && Owns(view[i], c.pos) && sp.first <= view[i].num < |sp.starts|
             && c.pos < |LogOf(sp)| && r.rec == LogOf(sp)[c.pos] && Fits(r.rec, c.source.snaplen)
    ensures Truthful(s, r, view, i)
  {
    hide System.Inv, SP.Spool.Inv, ReadIn, Claim, Within, LogOf, FitsAll, Fits, Leads;
    var c, sp, e := s.conn.value, s.spools[|s.spools| - 1], view[i];
    LogIsWorld(sp);
    DiskBacks(sp, e);
    ReadsIn(sp, e, sp.File(e.num), c.pos, c.source.snaplen);
  }

  /** A batch the pass sends fits a frame. */
  predicate AllFit(l: Channel, evs: seq<Event>) {
    forall k :: 0 <= k < |evs| && evs[k].Batch? ==> Sendable(l, Plain(evs[k], 0))
  }

  /**
   Every pass of the serve loop, as `Serve.Streamer.Turn` specifies it, is a sequence of
   the system's serve steps that ends in the same state and sends the same events.
   */
  lemma TurnIsSteps(s: System, r: Outcome, view: seq<Segment>, i: nat, beat: bool,
      limits: SV.Limits) returns (t: System)
    requires Looping(s) && Nameable(s) && s.spools[|s.spools| - 1].Inv() && |s.conn.value.batch| <= s.conn.value.pos
    requires CanSee(s.conn.value, s.spools[|s.spools| - 1], view) && Truthful(s, r, view, i)
    requires var p := SV.Turned(TailOf(s.conn.value), r, view, FullView(s.spools[|s.spools| - 1]), beat, limits);
             AllFit(s.link, p.sent)
    ensures Did(s, t, SV.Turned(TailOf(s.conn.value), r, view, FullView(s.spools[|s.spools| - 1]), beat, limits))
  {
    hide System.Inv, SP.Spool.Inv, Did, FullView, ReadAt, Sendable, SV.Pushed, SV.Flushed, SV.Reopened;
    var u := Looks(s, view);
    DidConn(s, u, SV.Pass(TailOf(s.conn.value).(view := view), []));
    match r
    case Got(rec, _) => t := GotIsSteps(s, u, rec, i, beat, limits);
    case NoData => t := NoDataIsSteps(s, u);
    case Reaped => t := ReapedIsSteps(s, u);
    case Gone => t := u;
    case Bad => t := u;
  }

  lemma DidConn(s: System, t: System, p: SV.Pass)
    requires Did(s, t, p)
    ensures Looping(s) && Looping(t) && t.spools == s.spools && t.link == s.link && TailOf(t.conn.value) == p.tail
    ensures t.conn.value.held == s.conn.value.held && t.conn.value.source == s.conn.value.source
    ensures Nameable(s) ==> Nameable(t)
  {
    hide System.Inv, Leads;
  }

  lemma NoDataIsSteps(s: System, u: System) returns (t: System)
    requires u.conn.Some? && Did(s, u, SV.Pass(TailOf(u.conn.value), []))
    requires |u.conn.value.batch| <= u.conn.value.pos && AllFit(u.link, SV.Flushed(TailOf(u.conn.value)).sent + [Quiet])
    ensures var p := SV.Flushed(TailOf(u.conn.value)); Did(s, t, p.(sent := p.sent + [Quiet]))
  {
    hide System.Inv, SP.Spool.Inv, Did, Sendable;
    var v, p := SV.Pass(TailOf(u.conn.value), []), SV.Flushed(TailOf(u.conn.value));
    DidConn(s, u, v);
    FlushFits(u, [Quiet]);
    var a := Flushes(u);
    DidThen(s, u, a, v, p);
    DidConn(u, a, p);
    t := Beats(a);
    assert v.sent + p.sent == p.sent;
    DidThen(s, a, t, p, SV.Pass(p.tail, [Quiet]));
  }

  lemma FlushFits(s: System, rest: seq<Event>)
    requires s.conn.Some? && |s.conn.value.batch| <= s.conn.value.pos
    requires AllFit(s.link, SV.Flushed(TailOf(s.conn.value)).sent + rest)
    ensures var c := s.conn.value; c.batch != [] ==> Sendable(s.link, Plain(Batch(c.pos - |c.batch|, c.batch), 0))
  {
    hide Sendable;
    var c := s.conn.value;
    if c.batch != [] {
      var evs := SV.Flushed(TailOf(c)).sent + rest;
      assert evs[0] == Batch(c.pos - |c.batch|, c.batch);
    }
  }

  lemma ReapedIsSteps(s: System, u: System) returns (t: System)
    requires u.conn.Some? && Did(s, u, SV.Pass(TailOf(u.conn.value), [])) && Nameable(u) && u.spools != []
    requires |u.conn.value.batch| <= u.conn.value.pos < OldestOf(u.conn.value.view)
    requires AllFit(u.link, SV.Reopened(TailOf(u.conn.value), FullView(u.spools[|u.spools| - 1])).sent)
    ensures Did(s, t, SV.Reopened(TailOf(u.conn.value), FullView(u.spools[|u.spools| - 1])))
  {
    hide System.Inv, SP.Spool.Inv, Did, Sendable, FullView;
    var c, view := u.conn.value, FullView(u.spools[|u.spools| - 1]);
    var v, p := SV.Pass(TailOf(c), []), SV.Flushed(TailOf(c));
    var from := OpenAt(view, c.pos).0;
    DidConn(s, u, v);
    FlushFits(u, [Gap(c.pos, from)]);
    var a := Flushes(u);
    DidThen(s, u, a, v, p);
    DidConn(u, a, p);
    t := Reopens(a);
    assert v.sent + p.sent == p.sent;
    DidThen(s, a, t, p, SV.Pass(SV.Tail(view, from, []), [Gap(c.pos, from)]));
  }

  lemma GotIsSteps(s: System, u: System, rec: Record, i: nat, beat: bool, limits: SV.Limits) returns (t: System)
    requires u.conn.Some? && Did(s, u, SV.Pass(TailOf(u.conn.value), [])) && Looping(u)
      && u.spools[|u.spools| - 1].Inv()
    requires var c := u.conn.value;
             && |c.batch| <= c.pos && i < |c.view| && Owns(c.view[i], c.pos)
             && ReadAt(u.spools[|u.spools| - 1], c.held, c.source.snaplen, c.view[i], c.pos) == Some(rec)
    requires var p := SV.Pushed(TailOf(u.conn.value), rec, limits);
             AllFit(u.link, if beat then p.sent + [Quiet] else p.sent)
    ensures var p := SV.Pushed(TailOf(u.conn.value), rec, limits);
            Did(s, t, if beat then p.(sent := p.sent + [Quiet]) else p)
  {
    hide System.Inv, SP.Spool.Inv, Did, Sendable, ReadAt, SV.Pushed;
    var p := SV.Pushed(TailOf(u.conn.value), rec, limits);
    FitFront(u.link, p.sent, beat);
    t := PushIsSteps(s, u, rec, i, limits);
    if beat {
      var b := t;
      DidConn(s, b, p);
      t := Beats(b);
      DidThen(s, b, t, p, SV.Pass(p.tail, [Quiet]));
    }
  }

  lemma FitFront(l: Channel, evs: seq<Event>, beat: bool)
    requires AllFit(l, if beat then evs + [Quiet] else evs)
    ensures AllFit(l, evs)
  {
    hide Sendable;
    if beat {
      assert forall k :: 0 <= k < |evs| ==> (evs + [Quiet])[k] == evs[k];
    }
  }

  /** A record read, and the batch flushed if it is full. */
  lemma PushIsSteps(s: System, u: System, rec: Record, i: nat, limits: SV.Limits) returns (t: System)
    requires u.conn.Some? && Did(s, u, SV.Pass(TailOf(u.conn.value), [])) && Looping(u)
      && u.spools[|u.spools| - 1].Inv()
    requires var c := u.conn.value;
             && |c.batch| <= c.pos && i < |c.view| && Owns(c.view[i], c.pos)
             && ReadAt(u.spools[|u.spools| - 1], c.held, c.source.snaplen, c.view[i], c.pos) == Some(rec)
    requires AllFit(u.link, SV.Pushed(TailOf(u.conn.value), rec, limits).sent)
    ensures Did(s, t, SV.Pushed(TailOf(u.conn.value), rec, limits))
  {
    hide System.Inv, SP.Spool.Inv, Did, Sendable, ReadAt, SV.Weight, SV.Flushed;
    var c := u.conn.value;
    var v, p := SV.Pass(TailOf(c), []), SV.Pushed(TailOf(c), rec, limits);
    var taken := SV.Pass(SV.Tail(c.view, c.pos + 1, c.batch + [rec]), []);
    t := Reads(u, i);
    DidThen(s, u, t, v, taken);
    assert v.sent + taken.sent == [];
    if |taken.tail.batch| >= limits.packets || SV.Weight(taken.tail.batch) >= limits.bytes {
      DidConn(u, t, taken);
      t := FullIsSteps(s, t, taken.tail);
    }
  }

  lemma FullIsSteps(s: System, u: System, tail: SV.Tail) returns (t: System)
    requires Did(s, u, SV.Pass(tail, [])) && u.conn.Some? && TailOf(u.conn.value) == tail && |tail.batch| <= tail.pos
    requires AllFit(u.link, SV.Flushed(tail).sent)
    ensures Did(s, t, SV.Flushed(tail))
  {
    hide System.Inv, SP.Spool.Inv, Did, Sendable, SV.Flushed;
    var p := SV.Flushed(tail);
    DidConn(s, u, SV.Pass(tail, []));
    assert p.sent + [] == p.sent && [] + p.sent == p.sent;
    FlushFits(u, []);
    t := Flushes(u);
    DidThen(s, u, t, SV.Pass(tail, []), p);
  }

  // ---- the collector ----

  /** The system's steps on a preamble come to reconcileEpoch, with the advertised start. */
  lemma HelloIsReconcile(s: System, gh: GlobalHeader, u: System, t: System)
    requires s.Inv() && u.Inv() && s.conn.Some? && s.mirror.Inv() && HelloStep(s, MHello(gh), u)
    requires if Realigns(s.mirror, s.conn.value.epoch) then u.conn.Some? && HelloStep(u, MSwitch, t) else t == u
    ensures s.mirror.pc == MI.Ready && s.conn.value.greeting.Sent?
    ensures var c := s.conn.value;
            && t == s.(mirror := t.mirror, conn := Some(c.(greeting := Taken)))
            && t.mirror == DX.EpochOn(s.mirror, Some(c.epoch), c.greeting.from, gh)
  {
    hide System.Inv, MI.Mirror.Inv, SP.Spool.Inv, MI.OpenSession;
  }

  /** Its steps on a batch in hand come to commit: refused together, and otherwise the same mirror. */
  lemma BatchIsCommit(s: System, gh: GlobalHeader, u: System, v: System, t: System)
    requires s.Inv() && u.Inv() && v.Inv() && s.conn.Some? && s.mirror.Inv() && MessageStep(s, MBatch, u)
    requires if u.mirror.pc.Wrote? then
               && u.conn.Some? && MessageStep(u, MSync, v) && v.conn.Some? && MessageStep(v, MSave, t)
             else t == u
    ensures s.mirror.pc == MI.Ready && s.conn.value.hand.Some?
    ensures var h := s.conn.value.hand.value;
            DX.OnEvent(s.mirror, gh, h.event, h.seqNo) == if t.conn.Some? then Some(t.mirror) else None
    ensures t.conn.Some? ==> t == s.(mirror := t.mirror, conn := Some(Done(s.conn.value)))
  {
    hide System.Inv, MI.Mirror.Inv, SP.Spool.Inv, EncodeAll, OverLinkAll, LogOf, LowOf, Sound;
    InHand(s);
  }

  /** Its steps on a gap in hand come to handleGap. */
  lemma GapIsHandled(s: System, gh: GlobalHeader, u: System, t: System)
    requires s.Inv() && u.Inv() && s.conn.Some? && s.mirror.Inv() && MessageStep(s, MGap(gh), u)
    requires if u.mirror.pc.Rotating? then u.conn.Some? && MessageStep(u, MSwitch, t) else t == u
    ensures s.mirror.pc == MI.Ready && s.conn.value.hand.Some?
    ensures var h := s.conn.value.hand.value;
            && DX.OnEvent(s.mirror, gh, h.event, h.seqNo) == Some(t.mirror)
            && t == s.(mirror := t.mirror, conn := Some(Done(s.conn.value)))
  {
    hide System.Inv, MI.Mirror.Inv, SP.Spool.Inv, MI.OpenSession;
  }
}
