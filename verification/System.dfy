/**
 The whole protocol as one state machine: the spool with its crashes, recoveries and
 reaps; a serve process tailing it; a link that carries bytes and can be cut at any of
 them; and a collector that can crash between any two durable steps. A wiped agent starts
 a new spool instance, and with it a new epoch; instances are numbered in order.
 */
module System {
  import opened Bytes
  import opened Pcap
  import opened Wire
  import opened Frames
  import opened Recovery
  import opened Reader
  import opened Stream
  import opened History
  import opened Link
  import SP = Spool
  import MI = Mirror
  import DX = Demux

  /** A refresh under way. The reader keeps the file list of s1 and the manifest of s2. */
  datatype Refreshing = Still | Listed(s1: SP.Spool) | Loaded(s1: SP.Spool, s2: SP.Spool)

  /** The preamble: not yet written (resume asked for), in flight (start advertised), or handled. */
  datatype Greeting = Unsent(resume: nat) | Sent(from: nat) | Taken

  /** A message the collector has read and is working on. */
  datatype Message = Message(event: Event, seqNo: nat)

  /** SourceHeader: the newest file is looked up, then the reader's snaplen is read from its header. */
  datatype Source = Unknown | Newest(num: nat) | Known(snaplen: u32)

  /** A sealed file the reader has open: it reads on though the file be unlinked. */
  datatype Held = Held(num: nat, data: bytes)

  datatype Conn = Conn(
    epoch: nat,             // the spool instance being served
    live: bool,             // the serve process is still there
    greeting: Greeting,
    at: nat,                // where the stream stands at the message in hand, else at the next one
    hand: Option<Message>,
    queue: seq<Event>,      // sent by serve, not read by the collector
    wire: bytes,            // what the link still holds of their frames
    source: Source,
    refreshing: Refreshing,
    view: seq<Segment>,
    pos: nat,               // the reader's next gpidx
    held: Option<Held>,
    batch: seq<Record>,     // read, not yet sent
    lost: bool)             // ErrReaped: a new reader is about to be opened
  {
    /** Where the stream stands at the front of the queue. */
    function Front(): nat { if hand.None? then at else Past(at, hand.value.event) }
  }

  datatype System = System(link: Channel, spools: seq<SP.Spool>, conn: Option<Conn>, mirror: MI.Mirror)
  {
    predicate SpoolsOk() {
      spools != [] && forall e :: 0 <= e < |spools| ==> spools[e].Inv()
    }

    function Log(e: nat): seq<Record>
      requires SpoolsOk() && e < |spools|
    {
      LogOf(spools[e])
    }

    function Low(e: nat): nat
      requires SpoolsOk() && e < |spools|
    {
      LowOf(spools[e])
    }

    function Sessions(): (ss: seq<MI.Session>)
      ensures ss != []
    {
      mirror.past + [Current(mirror)]
    }

    /** Before first contact the mirror is empty; afterwards its sessions are sound. */
    predicate SessionsOk()
      requires SpoolsOk()
    {
      if mirror.saved.epoch == None
      then mirror.past == [] && mirror.cur == [] && mirror.saved.sessionStart == 0
      else Sound(Sessions(), LogsOf(spools), LowsOf(spools))
    }

    ghost predicate QueueOk()
      requires SpoolsOk()
    {
      conn.Some? ==>
        var c := conn.value;
        && c.epoch < |spools| && (mirror.saved.epoch.Some? ==> mirror.saved.epoch.value <= c.epoch)
        && WireOk(link, c) && StreamOk(c, Log(c.epoch), Low(c.epoch))
        && match c.greeting
           case Unsent(resume) => c.queue == [] && resume == mirror.saved.committed && c.at == 0
           case Sent(from) => c.at <= mirror.saved.committed && c.at <= from <= |Log(c.epoch)|
           case Taken => c.at <= mirror.saved.committed && mirror.saved.epoch == Some(c.epoch)
    }

    predicate ServeOk()
      requires SpoolsOk()
    {
      conn.Some? && conn.value.live ==>
        var c := conn.value;
        && c.epoch == |spools| - 1 && RefreshOk(c.refreshing, spools[c.epoch]) && HeldOk(c.held, spools[c.epoch])
        && (!c.greeting.Unsent? ==> TailOk(c, spools[c.epoch]))
    }

    /** A durable operation under way belongs to the preamble or the message in hand. */
    predicate PcOk() {
      match mirror.pc
      case Off => conn == None
      case Ready => true
      case Wrote(recs, _) => Appending(recs)
      case Flushed(recs, _) => Appending(recs)
      case Rewriting(_) => conn.Some? && conn.value.greeting.Sent?
      case Rotating(next) =>
        && conn.Some?
        && match conn.value.greeting
           case Unsent(_) => false
           case Sent(from) => Realigns(mirror, conn.value.epoch) && next.epoch == Some(conn.value.epoch)
             && next.committed == from
           case Taken =>
             && conn.value.hand.Some? && conn.value.hand.value.event.Gap?
             && mirror.saved.committed < conn.value.hand.value.event.to == next.committed
               && next.epoch == mirror.saved.epoch
    }

    predicate Appending(recs: seq<Record>) {
      && conn.Some? && conn.value.hand.Some? && conn.value.hand.value.event.Batch?
      && var e := conn.value.hand.value.event;
         e.base <= mirror.saved.committed && recs == DX.Survivors(mirror.saved.committed, e.base, e.recs)
    }

    ghost predicate Inv() {
      Lossless(link) && mirror.Inv() && SpoolsOk() && SessionsOk() && QueueOk() && ServeOk() && PcOk()
    }
  }

  /** Every gpidx below it has left the disk at some time. */
  function LowOf(s: SP.Spool): nat
    requires s.Inv()
  {
    s.low
  }

  function LogOf(s: SP.Spool): seq<Record>
    requires s.Inv()
  {
    s.DLog()
  }

  /** The durable logs, record by record as the link delivers them. */
  function LogsOf(spools: seq<SP.Spool>): (logs: seq<seq<Record>>)
    requires forall e :: 0 <= e < |spools| ==> spools[e].Inv()
    ensures |logs| == |spools| && forall e :: 0 <= e < |spools| ==> logs[e] == OverLinkAll(LogOf(spools[e]))
  {
    seq(|spools|, e requires 0 <= e < |spools| => OverLinkAll(LogOf(spools[e])))
  }

  function LowsOf(spools: seq<SP.Spool>): (lows: seq<nat>)
    requires forall e :: 0 <= e < |spools| ==> spools[e].Inv()
    ensures |lows| == |spools| && forall e :: 0 <= e < |spools| ==> lows[e] == LowOf(spools[e])
  {
    seq(|spools|, e requires 0 <= e < |spools| => LowOf(spools[e]))
  }

  function Current(m: MI.Mirror): MI.Session {
    MI.Session(m.saved.epoch, m.saved.sessionStart, m.cur)
  }

  predicate Realigns(m: MI.Mirror, epoch: nat) {
    m.saved.epoch.Some? && m.saved.epoch != Some(epoch)
  }

  /** The link holds the queue's frames, all of them while serve is there, else cut at some byte. */
  ghost predicate WireOk(l: Channel, c: Conn) {
    InFlight(l, c.queue, c.wire) && (c.live ==> AllSent(l, c.queue, c.wire))
  }

  /** What is in hand and what is queued is cut from the log, in order. */
  predicate StreamOk(c: Conn, log: seq<Record>, low: nat) {
    && Flows(log, low, c.Front(), c.queue)
    && (c.hand.Some? ==> c.greeting.Taken? && Sends(OverLinkAll(log), low, c.at, c.hand.value.event))
  }

  predicate RefreshOk(r: Refreshing, s: SP.Spool)
    requires s.Inv()
  {
    match r
    case Still => true
    case Listed(s1) => s1.Inv() && SP.Later(s1, s)
    case Loaded(s1, s2) => s1.Inv() && s2.Inv() && SP.Later(s1, s2) && SP.Later(s2, s)
  }

  /** An open sealed file holds its segment's records, all of them durable. */
  predicate HeldOk(held: Option<Held>, s: SP.Spool)
    requires s.Inv()
  {
    held.Some? ==>
      var k := held.value.num;
      k < s.sealed && s.End(k) <= s.durable && Holds(held.value.data, s.Range(k))
  }

  /** The reader stands in the durable log with a true view; sent and pending packets end where it stands. */
  predicate TailOk(c: Conn, s: SP.Spool)
    requires s.Inv()
  {
    && TrueView(WorldOf(s), c.view) && OldestOf(c.view) <= LowOf(s)
    && |c.batch| <= c.pos <= |LogOf(s)| && c.batch == LogOf(s)[c.pos - |c.batch|..c.pos]
    && Tip(c.Front(), c.queue) == c.pos - |c.batch|
    && (c.lost ==> c.batch == [] && c.pos <= LowOf(s))
  }

  // ---- the serve side ----

  /** The packet the view's entry for g leads to in these bytes of its file, for a reader with this snaplen. */
  function ReadIn(data: bytes, e: Segment, g: nat, snaplen: u32): Option<Record>
    requires Owns(e, g)
  {
    match WalkTo(data, g - e.start)
    case None => None
    case Some(off) =>
      match ReadRecordAt(data, off, e.validLen, snaplen)
      case Read(rec, _) => Some(rec)
      case _ => None
  }

  /** The same, from the file on disk or through the handle the reader has. */
  function ReadAt(s: SP.Spool, held: Option<Held>, snaplen: u32, e: Segment, g: nat): Option<Record>
    requires s.Inv() && Owns(e, g)
  {
    if s.first <= e.num < |s.starts| then ReadIn(s.File(e.num), e, g, snaplen)
    else if held.Some? && held.value.num == e.num then ReadIn(held.value.data, e, g, snaplen)
    else None
  }

  function Send(l: Channel, c: Conn, p: Post): Conn
    requires Sendable(l, p)
  {
    c.(queue := c.queue + [p.event], wire := c.wire + EncodeFrame(l.crc, FrameOf(l, p)))
  }

  function ViewAt(r: Refreshing, head: Option<Segment>): seq<Segment>
    requires r.Loaded?
  {
    ViewOf(Nums(r.s1), Latest(r.s2.manifest), head)
  }

  /** The gpidx a gap would name fit the wire. */
  predicate Below64(c: Conn, view: seq<Segment>) {
    c.pos < TWO64 && OldestOf(view) < TWO64 && (c.greeting.Unsent? ==> c.greeting.resume < TWO64)
  }

  /** The last read of a refresh: what the new view means depends on who asked for it. */
  function Pointed(l: Channel, c: Conn, head: Option<Segment>, seqNo: u64): Conn
    requires c.refreshing.Loaded? && Below64(c, ViewAt(c.refreshing, head))
  {
    var view := ViewAt(c.refreshing, head);
    var d := c.(refreshing := Still, view := view);
    match c.greeting
    case Unsent(resume) =>
      var (from, reaped) := OpenAt(view, resume);
      var o := d.(greeting := Sent(from), pos := from, batch := [], lost := false, at := if reaped then 0 else from);
      if reaped then Send(l, o, Plain(Gap(resume, from), seqNo)) else o
    case _ =>
      if c.lost then
        var from := OpenAt(view, c.pos).0;
        Send(l, d.(lost := false, pos := from), Plain(Gap(c.pos, from), seqNo))
      else d
  }

  /** The message in hand is dealt with. */
  function Done(c: Conn): Conn
    requires c.hand.Some?
  {
    c.(at := Past(c.at, c.hand.value.event), hand := None)
  }

  datatype Move =
    | MSpool(a: SP.Act) | MWipe(gh: GlobalHeader)
    // serve
    | MConnect | MSource | MHeader | MList | MLoad | MPoint(seqNo: u64) | MOpen(num: nat) | MRead(i: nat)
    | MFlush(seqNo: u64) | MLost | MBeat(seqNo: u64, typ: byte, note: bytes) | MCut(n: nat)
    // collector
    | MClear(gh: GlobalHeader, data: bytes) | MReheader | MHello(gh: GlobalHeader) | MTake | MBatch | MSync | MSave
    | MGap(gh: GlobalHeader) | MSwitch | MQuiet | MDrop | MCrash | MStart(gh: GlobalHeader)

  /** Steps of the agent host: the capture process, the janitor, a wipe. */
  ghost predicate AgentStep(s: System, mv: Move, t: System)
    requires s.Inv()
  {
    var n := |s.spools| - 1;
    match mv
    case MSpool(a) =>
      |t.spools| == n + 1 && SP.Step(s.spools[n], a, t.spools[n]) && t == s.(spools := s.spools[n := t.spools[n]])
    case MWipe(gh) =>
      t == s.(spools := s.spools + [SP.Init(gh)],
              conn := if s.conn.None? then None else Some(s.conn.value.(live := false)))
    case _ => false
  }

  /** Steps of the serve process; only a live one takes any. */
  predicate ServeStep(l: Channel, c: Conn, sp: SP.Spool, mv: Move, d: Conn)
    requires sp.Inv()
  {
    c.live && match mv
    case MSource => c.source == Unknown && d == c.(source := Newest(sp.Last()))
    case MHeader =>
      && c.source.Newest? && sp.first <= c.source.num < |sp.starts|
      && var h := ParseGlobalHeader(sp.File(c.source.num)); h.Some? && d == c.(source := Known(h.value.snaplen))
    case MList => c.source.Known? && d == c.(refreshing := Listed(sp))
    case MLoad => c.refreshing.Listed? && d == c.(refreshing := Loaded(c.refreshing.s1, sp))
    case MPoint(seqNo) =>
      && c.refreshing.Loaded? && Below64(c, ViewAt(c.refreshing, sp.headPtr))
      && d == Pointed(l, c, sp.headPtr, seqNo)
    case MOpen(num) => sp.first <= num < sp.Last() && d == c.(held := Some(Held(num, sp.File(num))))
    case MRead(i) =>
      && !c.greeting.Unsent? && !c.lost && c.source.Known? && i < |c.view| && Owns(c.view[i], c.pos)
      && var r := ReadAt(sp, c.held, c.source.snaplen, c.view[i], c.pos);
         r.Some? && d == c.(batch := c.batch + [r.value], pos := c.pos + 1)
    case MFlush(seqNo) =>
      && !c.greeting.Unsent? && c.batch != [] && |c.batch| <= c.pos
      && var p := Plain(Batch(c.pos - |c.batch|, c.batch), seqNo);
         Sendable(l, p) && d == Send(l, c, p).(batch := [])
    case MLost => !c.greeting.Unsent? && c.batch == [] && c.pos < OldestOf(c.view) && d == c.(lost := true)
    case MBeat(seqNo, typ, note) =>
      !c.greeting.Unsent? && Sendable(l, Post(Quiet, seqNo, typ, note))
        && d == Send(l, c, Post(Quiet, seqNo, typ, note))
    case _ => false
  }

  /** Steps of the collector on the preamble. */
  ghost predicate HelloStep(s: System, mv: Move, t: System)
    requires s.Inv() && s.conn.Some?
  {
    var c, m := s.conn.value, s.mirror;
    c.greeting.Sent? && match mv
    case MClear(gh, data) => m.pc == MI.Ready && m.cur == [] && t == s.(mirror := MI.Clear(m, gh, data))
    case MReheader => m.pc.Rewriting? && t == s.(mirror := MI.Reheader(m))
    case MHello(gh) =>
      && m.pc == MI.Ready
      && t == if Realigns(m, c.epoch) then s.(mirror := MI.RotateOpen(m, c.greeting.from, Some(c.epoch), gh))
              else s.(mirror := if m.saved.epoch.None? then MI.Adopt(m, c.epoch) else m,
                      conn := Some(c.(greeting := Taken)))
    case MSwitch => m.pc.Rotating? && t == s.(mirror := MI.RotateSave(m), conn := Some(c.(greeting := Taken)))
    case _ => false
  }

  /** The collector reads the next frame off the link; one it cannot make sense of ends the connection. */
  ghost predicate TakeStep(s: System, t: System)
    requires s.Inv() && s.conn.Some?
  {
    var c, r := s.conn.value, ReadFrame(s.link.crc, s.conn.value.wire);
    && c.greeting.Taken? && s.mirror.pc == MI.Ready && c.hand.None? && r.Got?
    && match DX.Meaning(s.link.srcId, s.link.inflate, r.frame)
       case None => t == s.(conn := None)
       case Some(e) =>
         t == s.(conn := Some(c.(hand := Some(Message(e, r.frame.seqNo)), wire := c.wire[r.used..],
                                 queue := if c.queue == [] then [] else c.queue[1..])))
  }

  /** Steps of the collector on the message in hand, one durable step at a time. */
  ghost predicate MessageStep(s: System, mv: Move, t: System)
    requires s.Inv() && s.conn.Some?
  {
    var c, m := s.conn.value, s.mirror;
    && c.hand.Some?
    && var e := c.hand.value.event;
    match mv
    case MBatch =>
      && m.pc == MI.Ready && e.Batch?
      && t == if e.base > m.saved.committed then s.(conn := None)
              else var keep := DX.Survivors(m.saved.committed, e.base, e.recs);
                if keep == [] then s.(conn := Some(Done(c)))
                else s.(mirror := MI.AppendWrite(m, keep, c.hand.value.seqNo))
    case MSync => m.pc.Wrote? && t == s.(mirror := MI.AppendSync(m))
    case MSave => m.pc.Flushed? && t == s.(mirror := MI.AppendSave(m), conn := Some(Done(c)))
    case MGap(gh) =>
      && m.pc == MI.Ready && e.Gap?
      && t == if e.to <= m.saved.committed then s.(conn := Some(Done(c)))
              else s.(mirror := MI.RotateOpen(m, e.to, m.saved.epoch, gh))
    case MSwitch => m.pc.Rotating? && t == s.(mirror := MI.RotateSave(m), conn := Some(Done(c)))
    case MQuiet => m.pc == MI.Ready && e.Quiet? && t == s.(conn := Some(Done(c)))
    case _ => false
  }

  /** The collector started with a snaplen no smaller than the agent's. */
  predicate SnaplenOk(s: System, gh: GlobalHeader) {
    match s.mirror.saved.epoch
    case None => true
    case Some(e) => e < |s.spools| && s.spools[e].gh.snaplen <= gh.snaplen
  }

  function Dialled(s: System): Conn
    requires s.spools != []
  {
    Conn(|s.spools| - 1, true, Unsent(s.mirror.saved.committed), 0, None, [], [], Unknown, Still, [], 0, None, [],
         false)
  }

  ghost predicate Step(s: System, mv: Move, t: System)
    requires s.Inv()
  {
    hide MI.Mirror.Inv, SP.Spool.Inv, AgentStep, ServeStep, HelloStep, TakeStep, MessageStep, System.SessionsOk,
      System.QueueOk, System.ServeOk, Lossless;
    match mv
    case MSpool(_) | MWipe(_) => AgentStep(s, mv, t)
    case MConnect => s.mirror.pc == MI.Ready && t == s.(conn := Some(Dialled(s)))
    case MCut(n) =>
      && s.conn.Some? && n <= |s.conn.value.wire|
      && t == s.(conn := Some(s.conn.value.(live := false, wire := s.conn.value.wire[..n])))
    case MDrop => s.mirror.pc == MI.Ready && t == s.(conn := None)
    case MCrash => MI.Crash(s.mirror, t.mirror) && t == s.(conn := None, mirror := t.mirror)
    case MStart(gh) => s.mirror.pc == MI.Off && SnaplenOk(s, gh) && t == s.(mirror := MI.Reopened(s.mirror, gh))
    case MSource | MHeader | MList | MLoad | MPoint(_) | MOpen(_) | MRead(_) | MFlush(_) | MLost | MBeat(_, _, _) =>
      && s.conn.Some? && t.conn.Some? && t == s.(conn := t.conn)
      && ServeStep(s.link, s.conn.value, s.spools[|s.spools| - 1], mv, t.conn.value)
    case MTake => s.conn.Some? && TakeStep(s, t)
    case MClear(_, _) | MReheader | MHello(_) => s.conn.Some? && HelloStep(s, mv, t)
    case MBatch | MSync | MSave | MGap(_) | MQuiet => s.conn.Some? && MessageStep(s, mv, t)
    case MSwitch => s.conn.Some? && (HelloStep(s, mv, t) || MessageStep(s, mv, t))
  }

  function Init(l: Channel, gh: GlobalHeader): System {
    System(l, [SP.Init(gh)], None, MI.Init())
  }

  // ---- steps of the agent ----

  /** What has left the disk is not forgotten, and was durable. */
  lemma LowMoves(s: SP.Spool, t: SP.Spool)
    requires s.Inv() && t.Inv() && SP.Later(s, t)
    ensures LowOf(s) <= LowOf(t) <= |LogOf(t)| && LogOf(s) <= LogOf(t)
  {
    hide SP.Spool.FilesOk, SP.Spool.ManifestOk, SP.Spool.HeadOk, FitsAll;
  }

  lemma LogFits(s: SP.Spool)
    requires s.Inv()
    ensures FitsAll(LogOf(s), s.gh.snaplen)
  {
    hide SP.Spool.FilesOk, SP.Spool.ManifestOk, SP.Spool.HeadOk, Fits;
  }

  lemma TailMoves(c: Conn, s: SP.Spool, t: SP.Spool)
    requires s.Inv() && t.Inv() && SP.Later(s, t) && TailOk(c, s)
    ensures TailOk(c, t)
  {
    hide SP.Spool.Inv, TrueView, Tip, SP.Later, LogOf, LowOf;
    LowMoves(s, t);
    LogIsWorld(t);
    LaterGrows(s, t);
    LogFits(t);
    TrueViewStays(WorldOf(s), WorldOf(t), c.view);
    assert LogOf(t)[..|LogOf(s)|] == LogOf(s);
    SliceOfPrefix(LogOf(t), |LogOf(s)|, c.pos - |c.batch|, c.pos);
  }

  lemma RefreshMoves(r: Refreshing, s: SP.Spool, t: SP.Spool)
    requires s.Inv() && t.Inv() && SP.Later(s, t) && RefreshOk(r, s)
    ensures RefreshOk(r, t)
  {
    hide SP.Spool.Inv, SP.Later;
    match r
    case Still =>
    case Listed(s1) => SP.LaterTrans(s1, s, t);
    case Loaded(s1, s2) => SP.LaterTrans(s2, s, t);
  }

  lemma HeldMoves(held: Option<Held>, s: SP.Spool, t: SP.Spool)
    requires s.Inv() && t.Inv() && SP.Later(s, t) && HeldOk(held, s)
    ensures HeldOk(held, t)
  {
    hide SP.Spool.FilesOk, SP.Spool.ManifestOk, SP.Spool.HeadOk, FitsAll, SP.Ascending, EncodeAll, Holds;
    if held.Some? {
      var k := held.value.num;
      assert s.Seg(k) == t.Seg(k);
      s.EndBound(k);
      t.EndBound(k);
      assert t.log[..s.durable] == t.DLog()[..s.durable] == s.log[..s.durable];
      SameSlice(s.log, t.log, s.durable, s.starts[k], s.End(k));
    }
  }

  lemma StreamMoves(c: Conn, log: seq<Record>, low: nat, log': seq<Record>, low': nat)
    requires StreamOk(c, log, low) && log <= log' && low <= low'
    ensures StreamOk(c, log', low')
  {
    hide Flows, OverLinkAll;
    FlowsLater(log, low, log', low', c.Front(), c.queue);
    if c.hand.Some? {
      OverLinkPrefix(log, log');
      SendsLater(OverLinkAll(log), low, OverLinkAll(log'), low', c.at, c.hand.value.event);
    }
  }

  lemma LogsGrow(spools: seq<SP.Spool>, more: seq<SP.Spool>)
    requires |spools| <= |more|
    requires forall e :: 0 <= e < |spools| ==> spools[e].Inv()
    requires forall e :: 0 <= e < |more| ==> more[e].Inv()
    requires forall e :: 0 <= e < |spools| ==> LogOf(spools[e]) <= LogOf(more[e]) && LowOf(spools[e]) <= LowOf(more[e])
    ensures Grown(LogsOf(spools), LowsOf(spools), LogsOf(more), LowsOf(more))
  {
    hide SP.Spool.Inv, LogOf, LowOf, OverLinkAll;
    forall e | 0 <= e < |spools| ensures LogsOf(spools)[e] <= LogsOf(more)[e] {
      OverLinkPrefix(LogOf(spools[e]), LogOf(more[e]));
    }
  }

  /** The newest spool moves on. */
  lemma SpoolMoves(s: System, sp: SP.Spool)
    requires s.Inv() && sp.Inv() && SP.Later(s.spools[|s.spools| - 1], sp)
    ensures s.(spools := s.spools[|s.spools| - 1 := sp]).Inv()
  {
    hide SP.Spool.Inv, SP.Later, MI.Mirror.Inv, Sound, StreamOk, WireOk, TailOk, RefreshOk, HeldOk, LogOf, LowOf,
      Lossless;
    var n := |s.spools| - 1;
    var t := s.(spools := s.spools[n := sp]);
    LowMoves(s.spools[n], sp);
    if s.mirror.saved.epoch.Some? {
      LogsGrow(s.spools, t.spools);
      SoundGrows(s.Sessions(), LogsOf(s.spools), LowsOf(s.spools), LogsOf(t.spools), LowsOf(t.spools));
    }
    if s.conn.Some? {
      var c := s.conn.value;
      StreamMoves(c, s.Log(c.epoch), s.Low(c.epoch), t.Log(c.epoch), t.Low(c.epoch));
      if c.live {
        RefreshMoves(c.refreshing, s.spools[n], sp);
        HeldMoves(c.held, s.spools[n], sp);
        if !c.greeting.Unsent? {
          TailMoves(c, s.spools[n], sp);
        }
      }
    }
  }

  /** The agent is wiped: a new instance, and the old one's serve process is gone. */
  lemma WipeKeeps(s: System, gh: GlobalHeader, t: System)
    requires s.Inv() && AgentStep(s, MWipe(gh), t)
    ensures t.Inv()
  {
    hide SP.Spool.Inv, MI.Mirror.Inv, Sound, Flows, Sends, InFlight, AllSent, TailOk, RefreshOk, HeldOk, LogOf,
      LowOf, SP.Init, Lossless;
    SP.InitInv(gh);
    assert forall e :: 0 <= e < |s.spools| ==> t.spools[e] == s.spools[e];
    if s.mirror.saved.epoch.Some? {
      LogsGrow(s.spools, t.spools);
      SoundGrows(s.Sessions(), LogsOf(s.spools), LowsOf(s.spools), LogsOf(t.spools), LowsOf(t.spools));
    }
  }

  // ---- steps of serve ----

  lemma LogIsWorld(s: SP.Spool)
    requires s.Inv()
    ensures WorldOf(s).dlog == LogOf(s) && WorldOf(s).snaplen == s.gh.snaplen
  {
  }

  /** Bytes that carry what a true entry claims yield the log record, exactly if it fits the reader's snaplen. */
  lemma ReadsIn(s: SP.Spool, e: Segment, data: bytes, g: nat, snaplen: u32)
    requires s.Inv() && Claim(LogOf(s), e) && Owns(e, g) && Carries(data, LogOf(s)[e.start..e.end])
    ensures ReadIn(data, e, g, snaplen) == if Fits(LogOf(s)[g], snaplen) then Some(LogOf(s)[g]) else None
  {
    hide SP.Spool.Inv, EncodeAll, FitsAll, LogOf, Carries, WalkTo, ReadRecordAt;
    var log := LogOf(s);
    var rs := log[e.start..e.end];
    LogFits(s);
    FitsSlice(log, e.start, e.end, s.gh.snaplen);
    FitsMore(rs, s.gh.snaplen, ENCODABLE);
    WalkToFinds(data, rs, g - e.start);
    assert rs[g - e.start] == log[g] && rs[..|rs|] == rs;
    ReadsFitting(data, rs, g - e.start, e.validLen, snaplen);
  }

  lemma HeldBacks(s: SP.Spool, held: Held, e: Segment)
    requires s.Inv() && HeldOk(Some(held), s) && Within(WorldOf(s), e) && e.start < e.end && e.num == held.num
    ensures e.end <= |LogOf(s)| && Carries(held.data, LogOf(s)[e.start..e.end])
  {
    hide SP.Spool.FilesOk, SP.Spool.ManifestOk, SP.Spool.HeadOk, EncodeAll, FitsAll, SP.Ascending, Holds, Carries;
    s.EndBound(e.num);
    var n := e.end - e.start;
    HoldsCarries(held.data, s.Range(e.num), n);
    FrontOfSlice(s.log, e.start, s.End(e.num), n);
    SliceOfPrefix(s.log, s.durable, e.start, e.end);
  }

  /** What the reader finds, on disk or through a handle on an unlinked file, is the log record. */
  lemma ReadsTruth(s: SP.Spool, held: Option<Held>, snaplen: u32, view: seq<Segment>, i: nat, g: nat)
    requires s.Inv() && HeldOk(held, s) && TrueView(WorldOf(s), view) && i < |view| && Owns(view[i], g)
    ensures g < |LogOf(s)|
    ensures ReadAt(s, held, snaplen, view[i], g).Some? ==>
      ReadAt(s, held, snaplen, view[i], g).value == LogOf(s)[g] && Fits(LogOf(s)[g], snaplen)
  {
    hide SP.Spool.Inv, FitsAll, ReadIn, Claim, Within, HeldOk, LogOf, Fits;
    var e := view[i];
    LogIsWorld(s);
    ClaimEnds(LogOf(s), e);
    if s.first <= e.num < |s.starts| {
      DiskBacks(s, e);
      ReadsIn(s, e, s.File(e.num), g, snaplen);
    } else if held.Some? && held.value.num == e.num {
      HeldBacks(s, held.value, e);
      ReadsIn(s, e, held.value.data, g, snaplen);
    }
  }

  lemma DiskBacks(s: SP.Spool, e: Segment)
    requires s.Inv() && Within(WorldOf(s), e) && e.start < e.end && s.first <= e.num < |s.starts|
    ensures s.Shape() && e.end <= |LogOf(s)| && Carries(s.File(e.num), LogOf(s)[e.start..e.end])
  {
    hide SP.Spool.FilesOk, SP.Spool.ManifestOk, SP.Spool.HeadOk, FitsAll, SP.Ascending, Carries, Within;
    FileBacks(s, e);
  }

  lemma ClaimEnds(dlog: seq<Record>, e: Segment)
    requires Claim(dlog, e)
    ensures e.end <= |dlog|
  {
  }

  /** A finished refresh gives the reader a view it can rely on. */
  lemma PointedView(r: Refreshing, s: SP.Spool)
    requires s.Inv() && r.Loaded? && RefreshOk(r, s)
    ensures var v := ViewAt(r, s.headPtr); TrueView(WorldOf(s), v) && OldestOf(v) <= LowOf(s)
  {
    hide SP.Spool.Inv, TrueView, Latest, ViewOf, SP.Later, HoleFree, Claim;
    RefreshIsTrueView(r.s1, r.s2, s);
    OldestIsLow(r.s1, r.s2, s);
  }

  lemma OldestIsLow(s1: SP.Spool, s2: SP.Spool, s3: SP.Spool)
    requires s1.Inv() && s2.Inv() && s3.Inv() && SP.Later(s1, s2) && SP.Later(s2, s3)
    ensures OldestOf(ViewOf(Nums(s1), Latest(s2.manifest), s3.headPtr)) <= LowOf(s3)
  {
    hide SP.Spool.FilesOk, SP.Spool.ManifestOk, SP.Spool.HeadOk, Latest, ViewOf, SP.Later, FitsAll, HoleFree, Claim;
    RefreshSeesTrueChain(s1, s2, s3);
    SP.LaterTrans(s1, s2, s3);
    LowMoves(s1, s3);
  }

  /** The serve process may change what is its own: its reader, its pending batch and the end of the queue. */
  predicate Continues(c: Conn, d: Conn) {
    && d.epoch == c.epoch && d.live == c.live && d.greeting == c.greeting
    && d.at == c.at && d.hand == c.hand
  }

  lemma ServeMoves(s: System, d: Conn)
    requires s.Inv() && s.conn.Some? && s.conn.value.live && Continues(s.conn.value, d)
    requires AllSent(s.link, d.queue, d.wire) && Flows(s.Log(d.epoch), s.Low(d.epoch), d.Front(), d.queue)
    requires RefreshOk(d.refreshing, s.spools[d.epoch]) && HeldOk(d.held, s.spools[d.epoch])
    requires if d.greeting.Unsent? then d.queue == [] else TailOk(d, s.spools[d.epoch])
    ensures s.(conn := Some(d)).Inv()
  {
    hide SP.Spool.Inv, MI.Mirror.Inv, Sound, Flows, Sends, AllSent, InFlight, TailOk, RefreshOk, HeldOk, LogOf,
      LowOf, Lossless;
    SentInFlight(s.link, d.queue, d.wire);
  }

  /** What a live connection says of itself. */
  lemma LiveFacts(s: System)
    requires s.Inv() && s.conn.Some? && s.conn.value.live
    ensures var c, sp := s.conn.value, s.spools[|s.spools| - 1];
            && c.epoch == |s.spools| - 1 && s.SpoolsOk() && AllSent(s.link, c.queue, c.wire) && sp.Inv()
            && Flows(LogOf(sp), LowOf(sp), c.Front(), c.queue) && RefreshOk(c.refreshing, sp) && HeldOk(c.held, sp)
            && (!c.greeting.Unsent? ==> TailOk(c, sp))
            && (c.greeting.Unsent? ==> && c.queue == [] && c.greeting.resume == s.mirror.saved.committed && c.hand.None?
                                       && s.mirror.pc == MI.Ready)
  {
    hide SP.Spool.Inv, MI.Mirror.Inv, Sound, Flows, Sends, AllSent, InFlight, TailOk, RefreshOk, HeldOk, LogOf,
      LowOf, Lossless;
  }

  /** A connection opens: the start is advertised, and a reaped resume point is announced as a gap. */
  lemma OpensTail(l: Channel, c: Conn, sp: SP.Spool, seqNo: u64)
    requires sp.Inv() && c.greeting.Unsent? && c.hand.None? && c.refreshing.Loaded? && RefreshOk(c.refreshing, sp)
    requires c.queue == [] && AllSent(l, c.queue, c.wire) && Below64(c, ViewAt(c.refreshing, sp.headPtr))
    ensures var d, resume := Pointed(l, c, sp.headPtr, seqNo), c.greeting.resume;
            && d.greeting.Sent? && d.at <= resume && d.at <= d.greeting.from <= |LogOf(sp)|
            && AllSent(l, d.queue, d.wire) && Flows(LogOf(sp), LowOf(sp), d.at, d.queue) && TailOk(d, sp)
  {
    hide SP.Spool.Inv, SP.Later, TrueView, LogOf, LowOf, ViewOf, Latest, AllSent, Sendable, EncodeFrame, FrameOf;
    var d, resume := Pointed(l, c, sp.headPtr, seqNo), c.greeting.resume;
    PointedView(c.refreshing, sp);
    LogIsWorld(sp);
    OpenInLog(WorldOf(sp), d.view, resume);
    assert LogOf(sp)[d.pos..d.pos] == [];
    if OpenAt(d.view, resume).1 {
      var p := Plain(Gap(resume, d.pos), seqNo);
      GapSendable(l, p);
      SendMore(l, [], c.wire, p);
      FlowsSnoc(LogOf(sp), LowOf(sp), 0, [], p.event);
      assert d.queue == [] + [p.event];
    }
  }

  lemma GapSendable(l: Channel, p: Post)
    requires p.event.Gap? && p.event.from < TWO64 && p.event.to < TWO64
    ensures Sendable(l, p)
  {
  }

  lemma OpensKeeps(s: System, seqNo: u64)
    requires s.Inv() && s.conn.Some? && s.conn.value.live && s.conn.value.greeting.Unsent?
    requires s.conn.value.refreshing.Loaded?
    requires Below64(s.conn.value, ViewAt(s.conn.value.refreshing, s.spools[|s.spools| - 1].headPtr))
    ensures s.(conn := Some(Pointed(s.link, s.conn.value, s.spools[|s.spools| - 1].headPtr, seqNo))).Inv()
  {
    hide SP.Spool.Inv, MI.Mirror.Inv, Sound, Flows, Sends, AllSent, InFlight, TailOk, LogOf, LowOf, Lossless,
      ViewAt, SP.Later, HeldOk;
    LiveFacts(s);
    var c, sp := s.conn.value, s.spools[|s.spools| - 1];
    OpensTail(s.link, c, sp, seqNo);
    var d := Pointed(s.link, c, sp.headPtr, seqNo);
    SentInFlight(s.link, d.queue, d.wire);
  }

  /** After ErrReaped: a new reader, and a gap over what retention dropped. */
  lemma ReopensTail(l: Channel, c: Conn, sp: SP.Spool, seqNo: u64)
    requires sp.Inv() && !c.greeting.Unsent? && c.lost && c.refreshing.Loaded? && RefreshOk(c.refreshing, sp)
      && TailOk(c, sp)
    requires AllSent(l, c.queue, c.wire) && Flows(LogOf(sp), LowOf(sp), c.Front(), c.queue)
    requires Below64(c, ViewAt(c.refreshing, sp.headPtr))
    ensures var d := Pointed(l, c, sp.headPtr, seqNo);
            && Continues(c, d) && d.refreshing == Still && d.held == c.held
            && AllSent(l, d.queue, d.wire) && Flows(LogOf(sp), LowOf(sp), d.Front(), d.queue) && TailOk(d, sp)
  {
    hide SP.Spool.Inv, RefreshOk, TrueView, LogOf, LowOf, ViewAt, AllSent, Sendable, EncodeFrame, FrameOf, Flows,
      Tip;
    var d := Pointed(l, c, sp.headPtr, seqNo);
    PointedView(c.refreshing, sp);
    LogIsWorld(sp);
    OpenInLog(WorldOf(sp), d.view, c.pos);
    var p := Plain(Gap(c.pos, d.pos), seqNo);
    GapSendable(l, p);
    SendMore(l, c.queue, c.wire, p);
    FlowsSnoc(LogOf(sp), LowOf(sp), c.Front(), c.queue, p.event);
    assert LogOf(sp)[d.pos..d.pos] == [];
  }

  lemma ReopensKeeps(s: System, seqNo: u64)
    requires s.Inv() && s.conn.Some? && s.conn.value.live && !s.conn.value.greeting.Unsent? && s.conn.value.lost
    requires s.conn.value.refreshing.Loaded?
    requires Below64(s.conn.value, ViewAt(s.conn.value.refreshing, s.spools[|s.spools| - 1].headPtr))
    ensures s.(conn := Some(Pointed(s.link, s.conn.value, s.spools[|s.spools| - 1].headPtr, seqNo))).Inv()
  {
    hide System.Inv, SP.Spool.Inv, LogOf, LowOf, ViewAt, AllSent, Flows, HeldOk, TailOk, Pointed, Below64;
    LiveFacts(s);
    var c, sp := s.conn.value, s.spools[|s.spools| - 1];
    ReopensTail(s.link, c, sp, seqNo);
    StillOk(sp);
    ServeMoves(s, Pointed(s.link, c, sp.headPtr, seqNo));
  }

  lemma StillOk(s: SP.Spool)
    requires s.Inv()
    ensures RefreshOk(Still, s)
  {
    hide SP.Spool.Inv;
  }

  lemma RefreshKeeps(s: System, mv: Move, d: Conn)
    requires s.Inv() && s.conn.Some? && ServeStep(s.link, s.conn.value, s.spools[|s.spools| - 1], mv, d)
    requires mv.MSource? || mv.MHeader? || mv.MList? || mv.MLoad? || (mv.MPoint?
      && !s.conn.value.greeting.Unsent? && !s.conn.value.lost)
    ensures s.(conn := Some(d)).Inv()
  {
    hide System.Inv, SP.Spool.Inv, SP.Later, TrueView, LogOf, LowOf, ViewAt, Flows, Tip, AllSent, HeldOk,
      ParseGlobalHeader;
    LiveFacts(s);
    var c, sp := s.conn.value, s.spools[|s.spools| - 1];
    SP.LaterRefl(sp);
    if mv.MPoint? {
      PointedView(c.refreshing, sp);
    }
    ServeMoves(s, d);
  }

  lemma OpenKeeps(s: System, num: nat, d: Conn)
    requires s.Inv() && s.conn.Some? && ServeStep(s.link, s.conn.value, s.spools[|s.spools| - 1], MOpen(num), d)
    ensures s.(conn := Some(d)).Inv()
  {
    hide System.Inv, SP.Spool.Inv, TrueView, LogOf, LowOf, Flows, Tip, AllSent, HeldOk, RefreshOk;
    LiveFacts(s);
    var sp := s.spools[|s.spools| - 1];
    SealedFile(sp, num);
    ServeMoves(s, d);
  }

  lemma SealedFile(s: SP.Spool, num: nat)
    requires s.Inv() && s.first <= num < s.Last()
    ensures HeldOk(Some(Held(num, s.File(num))), s)
  {
    hide SP.Spool.ManifestOk, SP.Spool.HeadOk, FitsAll, SP.Ascending, Holds;
    s.EndBound(num);
  }

  lemma ReadKeeps(s: System, i: nat, d: Conn)
    requires s.Inv() && s.conn.Some? && ServeStep(s.link, s.conn.value, s.spools[|s.spools| - 1], MRead(i), d)
    ensures s.(conn := Some(d)).Inv()
  {
    hide System.Inv, SP.Spool.Inv, TrueView, LogOf, LowOf, Flows, Tip, ReadAt, RefreshOk, HeldOk, AllSent;
    LiveFacts(s);
    var c, sp := s.conn.value, s.spools[|s.spools| - 1];
    ReadsTruth(sp, c.held, c.source.snaplen, c.view, i, c.pos);
    BatchGrows(LogOf(sp), c.pos - |c.batch|, c.pos);
    ServeMoves(s, d);
  }

  lemma BatchGrows(log: seq<Record>, a: nat, b: nat)
    requires a <= b < |log|
    ensures log[a..b] + [log[b]] == log[a..b + 1]
  {
  }

  lemma SendKeeps(s: System, p: Post, d: Conn)
    requires s.Inv() && s.conn.Some? && s.conn.value.live && !s.conn.value.greeting.Unsent? && Sendable(s.link, p)
    requires var c, sp := s.conn.value, s.spools[|s.spools| - 1];
             && Sends(LogOf(sp), LowOf(sp), Tip(c.Front(), c.queue), p.event)
             && d == Send(s.link, c, p).(batch := d.batch) && TailOk(d, sp)
    ensures s.(conn := Some(d)).Inv()
  {
    hide System.Inv, SP.Spool.Inv, TrueView, LogOf, LowOf, Flows, Tip, Sends, Sendable, RefreshOk, HeldOk, AllSent,
      EncodeFrame, FrameOf, TailOk;
    LiveFacts(s);
    var c, sp := s.conn.value, s.spools[|s.spools| - 1];
    SendMore(s.link, c.queue, c.wire, p);
    FlowsSnoc(LogOf(sp), LowOf(sp), c.Front(), c.queue, p.event);
    ServeMoves(s, d);
  }

  lemma FlushKeeps(s: System, seqNo: u64, d: Conn)
    requires s.Inv() && s.conn.Some? && ServeStep(s.link, s.conn.value, s.spools[|s.spools| - 1], MFlush(seqNo), d)
    ensures s.(conn := Some(d)).Inv()
  {
    hide System.Inv, SP.Spool.Inv, TrueView, LogOf, LowOf, Flows, Tip, Sendable, RefreshOk, HeldOk, AllSent,
      EncodeFrame, FrameOf;
    LiveFacts(s);
    var c, sp := s.conn.value, s.spools[|s.spools| - 1];
    var p := Plain(Batch(c.pos - |c.batch|, c.batch), seqNo);
    FlowsSnoc(LogOf(sp), LowOf(sp), c.Front(), c.queue, p.event);
    assert LogOf(sp)[c.pos..c.pos] == [];
    SendKeeps(s, p, d);
  }

  lemma BeatKeeps(s: System, seqNo: u64, typ: byte, note: bytes, d: Conn)
    requires s.Inv() && s.conn.Some? && ServeStep(s.link, s.conn.value, s.spools[|s.spools| - 1], MBeat(seqNo, typ,
      note), d)
    ensures s.(conn := Some(d)).Inv()
  {
    hide System.Inv, SP.Spool.Inv, TrueView, LogOf, LowOf, Flows, Tip, Sendable, RefreshOk, HeldOk, AllSent,
      EncodeFrame, FrameOf;
    LiveFacts(s);
    var c, sp := s.conn.value, s.spools[|s.spools| - 1];
    FlowsSnoc(LogOf(sp), LowOf(sp), c.Front(), c.queue, Quiet);
    SendKeeps(s, Post(Quiet, seqNo, typ, note), d);
  }

  lemma LostKeeps(s: System, d: Conn)
    requires s.Inv() && s.conn.Some? && ServeStep(s.link, s.conn.value, s.spools[|s.spools| - 1], MLost, d)
    ensures s.(conn := Some(d)).Inv()
  {
    hide System.Inv, SP.Spool.Inv, TrueView, LogOf, LowOf, Flows, Tip, RefreshOk, HeldOk, AllSent;
    LiveFacts(s);
    ServeMoves(s, d);
  }

  lemma ServeKeeps(s: System, mv: Move, d: Conn)
    requires s.Inv() && s.conn.Some? && ServeStep(s.link, s.conn.value, s.spools[|s.spools| - 1], mv, d)
    ensures s.(conn := Some(d)).Inv()
  {
    hide System.Inv, SP.Spool.Inv, Pointed, ReadAt, ViewAt, Send, Sendable, Below64;
    var c := s.conn.value;
    match mv
    case MSource => RefreshKeeps(s, mv, d);
    case MHeader => RefreshKeeps(s, mv, d);
    case MList => RefreshKeeps(s, mv, d);
    case MLoad => RefreshKeeps(s, mv, d);
    case MPoint(seqNo) =>
      if c.greeting.Unsent? {
        OpensKeeps(s, seqNo);
      } else if c.lost {
        ReopensKeeps(s, seqNo);
      } else {
        RefreshKeeps(s, mv, d);
      }
    case MOpen(num) => OpenKeeps(s, num, d);
    case MRead(i) => ReadKeeps(s, i, d);
    case MFlush(seqNo) => FlushKeeps(s, seqNo, d);
    case MLost => LostKeeps(s, d);
    case MBeat(seqNo, typ, note) => BeatKeeps(s, seqNo, typ, note, d);
  }

  // ---- steps of the collector ----

  lemma MirrorMoves(s: System, m: MI.Mirror)
    requires s.Inv() && m.Inv() && m.saved == s.mirror.saved && m.cur == s.mirror.cur && m.past == s.mirror.past
    requires s.(mirror := m).PcOk()
    ensures s.(mirror := m).Inv()
  {
    hide SP.Spool.Inv, MI.Mirror.Inv, Sound, StreamOk, WireOk, TailOk, RefreshOk, HeldOk, LogOf, LowOf, Lossless;
  }

  /** What the mirror's own invariant says of the operation under way. */
  lemma UnderWay(m: MI.Mirror)
    requires m.Inv()
    ensures m.saved.committed == m.saved.sessionStart + |m.cur|
    ensures m.pc.Flushed? ==> m.pc.recs != []
    ensures m.pc.Rotating? ==> m.pc.next.committed == m.pc.next.sessionStart
  {
  }

  /**
   The session the collector writes to holds the log of its epoch, as the link delivers it, up to the commit
   point.
   */
  lemma CurrentFollows(s: System)
    requires s.Inv() && s.mirror.saved.epoch.Some?
    ensures var m := s.mirror;
            && m.saved.epoch.value < |s.spools| && m.saved.committed <= |s.Log(m.saved.epoch.value)|
            && m.saved.committed == m.saved.sessionStart + |m.cur|
            && m.cur == OverLinkAll(s.Log(m.saved.epoch.value))[m.saved.sessionStart..m.saved.committed]
  {
    hide SP.Spool.Inv, LogOf, LowOf, MI.Mirror.Inv, Succeeds, System.QueueOk, System.ServeOk, System.PcOk,
      OverLinkAll, Lossless;
    var ss := s.Sessions();
    UnderWay(s.mirror);
    assert TrueSession(LogsOf(s.spools), ss[|ss| - 1]);
  }

  /** The message in hand has been dealt with, and left the mirror at or past where the stream stands. */
  lemma DoneMoves(s: System, m: MI.Mirror)
    requires s.Inv() && s.conn.Some? && s.conn.value.hand.Some?
    requires m.Inv() && m.pc == MI.Ready && m.saved.epoch == s.mirror.saved.epoch
    requires s.mirror.saved.committed <= m.saved.committed
    requires Past(s.conn.value.at, s.conn.value.hand.value.event) <= m.saved.committed
    requires Sound(s.(mirror := m).Sessions(), LogsOf(s.spools), LowsOf(s.spools))
    ensures s.(mirror := m, conn := Some(Done(s.conn.value))).Inv()
  {
    hide SP.Spool.Inv, MI.Mirror.Inv, Sound, LogOf, LowOf, TrueView, RefreshOk, HeldOk, Past, Sends, Flows,
      InFlight, AllSent, Lossless, OverLinkAll;
  }

  /** What is in hand is lawful where the stream stands, and the mirror has followed the log so far. */
  lemma InHand(s: System)
    requires s.Inv() && s.conn.Some? && s.conn.value.hand.Some?
    ensures var c, m := s.conn.value, s.mirror;
            && s.SpoolsOk() && c.greeting.Taken? && m.saved.epoch == Some(c.epoch) && c.epoch < |s.spools|
            && c.at <= m.saved.committed
            && Sends(OverLinkAll(s.Log(c.epoch)), s.Low(c.epoch), c.at, c.hand.value.event)
            && Sound(s.Sessions(), LogsOf(s.spools), LowsOf(s.spools))
            && s.Low(c.epoch) <= |s.Log(c.epoch)|
  {
    hide SP.Spool.Inv, MI.Mirror.Inv, Sound, LogOf, LowOf, TrueView, RefreshOk, HeldOk, Past, Sends, Flows,
      InFlight, AllSent, Lossless, OverLinkAll;
    LowInLog(s.spools[s.conn.value.epoch]);
  }

  lemma LowInLog(s: SP.Spool)
    requires s.Inv()
    ensures LowOf(s) <= |LogOf(s)|
  {
    SP.LaterRefl(s);
    LowMoves(s, s);
  }

  lemma HelloKeeps(s: System, mv: Move, t: System)
    requires s.Inv() && s.conn.Some? && HelloStep(s, mv, t)
    ensures t.Inv()
  {
    hide System.Inv, SP.Spool.Inv, MI.Mirror.Inv, MI.OpenSession, EncodeGlobalHeader;
    MirrorOk(s);
    match mv
    case MClear(gh, data) =>
      MI.StepKeeps(s.mirror, MI.AClear(gh, data), t.mirror);
      MirrorMoves(s, t.mirror);
    case MReheader =>
      MI.StepKeeps(s.mirror, MI.AReheader, t.mirror);
      MirrorMoves(s, t.mirror);
    case MHello(gh) =>
      if Realigns(s.mirror, s.conn.value.epoch) {
        MI.StepKeeps(s.mirror, MI.ARotate(s.conn.value.greeting.from, Some(s.conn.value.epoch), gh), t.mirror);
        MirrorMoves(s, t.mirror);
      } else {
        GreetKeeps(s, t);
      }
    case MSwitch => RealignKeeps(s, t);
  }

  /** First contact, or an agent already known. */
  lemma GreetKeeps(s: System, t: System)
    requires s.Inv() && s.conn.Some? && s.conn.value.greeting.Sent? && s.mirror.pc == MI.Ready
    requires !Realigns(s.mirror, s.conn.value.epoch)
    requires t == s.(mirror := if s.mirror.saved.epoch.None? then MI.Adopt(s.mirror, s.conn.value.epoch) else s.mirror,
                     conn := Some(s.conn.value.(greeting := Taken)))
    ensures t.Inv()
  {
    hide SP.Spool.Inv, MI.Mirror.Inv, Flows, Tip, TrueView, RefreshOk, HeldOk, LogOf, LowOf, InFlight, AllSent,
      Lossless, Sends, OverLinkAll;
    var c, m := s.conn.value, s.mirror;
    UnderWay(m);
    if m.saved.epoch.None? {
      MI.StepKeeps(m, MI.AAdopt(c.epoch), t.mirror);
      assert t.Sessions() == [MI.Session(Some(c.epoch), 0, [])];
      assert OverLinkAll(s.Log(c.epoch))[0..0] == [];
    }
  }

  /** ResetForEpoch's last step: the new epoch's session becomes the session of record. */
  lemma RealignKeeps(s: System, t: System)
    requires s.Inv() && s.conn.Some? && HelloStep(s, MSwitch, t)
    ensures t.Inv()
  {
    hide SP.Spool.Inv, MI.Mirror.Inv, Flows, Tip, TrueView, RefreshOk, HeldOk, LogOf, LowOf, InFlight, AllSent,
      Lossless, Sends, Sound, OverLinkAll;
    var c, m := s.conn.value, s.mirror;
    UnderWay(m);
    MI.StepKeeps(m, MI.ARotateSave, t.mirror);
    SessionOpens(s, t.mirror);
  }

  /** An empty session opened where one may open. */
  lemma SessionOpens(s: System, m: MI.Mirror)
    requires s.Inv() && s.mirror.saved.epoch.Some? && s.conn.Some?
    requires m.past == s.Sessions() && m.cur == [] && m.saved.epoch == Some(s.conn.value.epoch)
    requires s.conn.value.epoch < |s.spools| && m.saved.sessionStart <= |s.Log(s.conn.value.epoch)|
    requires if s.mirror.saved.epoch == m.saved.epoch
             then s.mirror.saved.committed <= m.saved.sessionStart <= s.Low(s.conn.value.epoch)
             else s.mirror.saved.epoch.value < s.conn.value.epoch
    ensures Sound(s.(mirror := m).Sessions(), LogsOf(s.spools), LowsOf(s.spools))
  {
    hide SP.Spool.Inv, MI.Mirror.Inv, LogOf, LowOf, System.QueueOk, System.ServeOk, System.PcOk, Lossless,
      OverLinkAll;
    UnderWay(s.mirror);
    var e, a := s.conn.value.epoch, m.saved.sessionStart;
    assert OverLinkAll(s.Log(e))[a..a] == [];
    assert s.Sessions()[|s.Sessions()| - 1] == Current(s.mirror);
    SoundRotates(s.Sessions(), Current(m), LogsOf(s.spools), LowsOf(s.spools));
  }

  lemma TakeKeeps(s: System, t: System)
    requires s.Inv() && s.conn.Some? && TakeStep(s, t)
    ensures t.Inv() && t.conn.Some?
  {
    hide SP.Spool.Inv, MI.Mirror.Inv, Sound, LogOf, LowOf, TrueView, RefreshOk, HeldOk, Past, Sends, InFlight,
      AllSent, Lossless, OverLinkAll, ReadFrame, DX.Meaning, Landed;
    var c := s.conn.value;
    Hears(s.link, c.queue, c.wire);
    LandedSends(s.Log(c.epoch), s.Low(c.epoch), c.at, c.queue[0]);
  }

  lemma BatchKeeps(s: System, t: System)
    requires s.Inv() && s.conn.Some? && MessageStep(s, MBatch, t)
    ensures t.Inv() && t.conn.Some?
  {
    hide System.Inv, SP.Spool.Inv, MI.Mirror.Inv, LogOf, LowOf, Sound, OverLinkAll;
    var c, m := s.conn.value, s.mirror;
    InHand(s);
    MirrorOk(s);
    var e := c.hand.value.event;
    var keep := DX.Survivors(m.saved.committed, e.base, e.recs);
    if keep == [] {
      DoneMoves(s, m);
    } else {
      MI.StepKeeps(m, MI.AWrite(keep, c.hand.value.seqNo), t.mirror);
      MirrorMoves(s, t.mirror);
    }
  }

  lemma MirrorOk(s: System)
    requires s.Inv()
    ensures s.mirror.Inv() && s.PcOk()
  {
    hide SP.Spool.Inv, MI.Mirror.Inv, System.SessionsOk, System.QueueOk, System.ServeOk, System.PcOk, Lossless;
  }

  lemma SaveKeeps(s: System, t: System)
    requires s.Inv() && s.conn.Some? && MessageStep(s, MSave, t)
    ensures t.Inv()
  {
    hide System.Inv, SP.Spool.Inv, MI.Mirror.Inv, LogOf, LowOf, Sound, OverLinkAll;
    InHand(s);
    var c, m := s.conn.value, s.mirror;
    var log, e := OverLinkAll(s.Log(c.epoch)), c.hand.value.event;
    MirrorOk(s);
    MI.StepKeeps(m, MI.ASave, t.mirror);
    CurrentFollows(s);
    UnderWay(m);
    var a, k, z := m.saved.sessionStart, m.saved.committed, t.mirror.saved.committed;
    assert z == e.base + |e.recs|;
    assert m.pc.recs == log[k..z] by { TailOfSlice(log, e.base, z, k); }
    SliceJoin(log, a, k, z);
    SoundExtends(m.past, Current(m), Current(t.mirror), LogsOf(s.spools), LowsOf(s.spools));
    DoneMoves(s, t.mirror);
  }

  lemma TailOfSlice(log: seq<Record>, a: nat, b: nat, k: nat)
    requires a <= k <= b <= |log|
    ensures log[a..b][k - a..] == log[k..b]
  {
  }

  lemma GapKeeps(s: System, gh: GlobalHeader, t: System)
    requires s.Inv() && s.conn.Some? && MessageStep(s, MGap(gh), t)
    ensures t.Inv()
  {
    hide System.Inv, SP.Spool.Inv, MI.Mirror.Inv, LogOf, LowOf, Sound, OverLinkAll, MI.OpenSession;
    var c, m := s.conn.value, s.mirror;
    InHand(s);
    MirrorOk(s);
    if c.hand.value.event.to <= m.saved.committed {
      DoneMoves(s, m);
    } else {
      MI.StepKeeps(m, MI.ARotate(c.hand.value.event.to, m.saved.epoch, gh), t.mirror);
      MirrorMoves(s, t.mirror);
    }
  }

  /** NewSession's last step. */
  lemma SwitchKeeps(s: System, t: System)
    requires s.Inv() && s.conn.Some? && MessageStep(s, MSwitch, t)
    ensures t.Inv()
  {
    hide System.Inv, SP.Spool.Inv, MI.Mirror.Inv, LogOf, LowOf, Sound, OverLinkAll;
    var m := s.mirror;
    InHand(s);
    MirrorOk(s);
    UnderWay(m);
    MI.StepKeeps(m, MI.ARotateSave, t.mirror);
    SessionOpens(s, t.mirror);
    DoneMoves(s, t.mirror);
  }

  lemma MessageKeeps(s: System, mv: Move, t: System)
    requires s.Inv() && s.conn.Some? && MessageStep(s, mv, t)
    ensures t.Inv()
  {
    hide System.Inv, SP.Spool.Inv, MI.Mirror.Inv, LogOf, LowOf, Sound, OverLinkAll, MI.RotateOpen, MI.RotateSave,
      DX.Survivors;
    match mv
    case MBatch => BatchKeeps(s, t);
    case MSync => SyncKeeps(s, t);
    case MSave => SaveKeeps(s, t);
    case MGap(gh) => GapKeeps(s, gh, t);
    case MSwitch => SwitchKeeps(s, t);
    case MQuiet =>
      InHand(s);
      MirrorOk(s);
      DoneMoves(s, s.mirror);
  }

  lemma SyncKeeps(s: System, t: System)
    requires s.Inv() && s.conn.Some? && MessageStep(s, MSync, t)
    ensures t.Inv()
  {
    hide System.Inv, SP.Spool.Inv, MI.Mirror.Inv, Sound, DX.Survivors;
    MirrorOk(s);
    MI.StepKeeps(s.mirror, MI.ASync, t.mirror);
    MirrorMoves(s, t.mirror);
  }

  // ---- every step ----

  /** The collector restarts with everything it had committed. */
  lemma StartKeeps(s: System, gh: GlobalHeader, t: System)
    requires s.Inv() && Step(s, MStart(gh), t)
    ensures t.Inv() && t.mirror.saved == s.mirror.saved && t.mirror.cur == s.mirror.cur
      && t.mirror.past == s.mirror.past
  {
    hide System.Inv, SP.Spool.Inv, MI.Mirror.Inv, LogOf, LowOf, Sound, MI.Reopened, FitsAll;
    var m := s.mirror;
    MirrorOk(s);
    SessionFits(s, gh);
    MI.ReopenKeeps(m, gh);
    ReopenedReady(m, gh);
    MirrorMoves(s, t.mirror);
  }

  lemma SessionFits(s: System, gh: GlobalHeader)
    requires s.Inv() && SnaplenOk(s, gh)
    ensures FitsAll(s.mirror.cur, gh.snaplen)
  {
    hide SP.Spool.Inv, MI.Mirror.Inv, LogOf, LowOf, Sound, FitsAll, OverLinkAll, System.QueueOk, System.ServeOk,
      System.PcOk, Lossless;
    var m := s.mirror;
    match m.saved.epoch
    case None => NothingToFit(gh.snaplen);
    case Some(e) =>
      var snaplen := s.spools[e].gh.snaplen;
      CurrentFollows(s);
      LogFits(s.spools[e]);
      OverLinkFits(s.Log(e), snaplen);
      FitsSlice(OverLinkAll(s.Log(e)), m.saved.sessionStart, m.saved.committed, snaplen);
      FitsMore(m.cur, snaplen, gh.snaplen);
  }

  lemma NothingToFit(snaplen: u32)
    ensures FitsAll([], snaplen)
  {
  }

  lemma ReopenedReady(m: MI.Mirror, gh: GlobalHeader)
    requires m.Inv() && m.pc == MI.Off
    ensures MI.Reopened(m, gh).pc == MI.Ready
  {
    hide MI.Mirror.Inv, MI.OpenSession;
  }

  lemma ConnectKeeps(s: System, t: System)
    requires s.Inv() && Step(s, MConnect, t)
    ensures t.Inv()
  {
    hide SP.Spool.Inv, MI.Mirror.Inv, LogOf, LowOf, Sound, TailOk, Lossless, AllSent, InFlight;
    NothingSent(s.link);
    SentInFlight(s.link, [], []);
    if s.mirror.saved.epoch.Some? {
      CurrentFollows(s);
    }
  }

  /** A connection cut at any byte. */
  lemma CutKeeps(s: System, n: nat, t: System)
    requires s.Inv() && Step(s, MCut(n), t)
    ensures t.Inv()
  {
    hide SP.Spool.Inv, MI.Mirror.Inv, LogOf, LowOf, Sound, TailOk, Lossless, AllSent, InFlight, Flows, Sends,
      OverLinkAll;
    CutInFlight(s.link, s.conn.value.queue, s.conn.value.wire, n);
  }

  lemma DropKeeps(s: System, t: System)
    requires s.Inv() && Step(s, MDrop, t)
    ensures t.Inv()
  {
    hide SP.Spool.Inv, MI.Mirror.Inv, LogOf, LowOf, Sound, TailOk, Lossless, WireOk, StreamOk;
  }

  lemma CrashKeeps(s: System, t: System)
    requires s.Inv() && Step(s, MCrash, t)
    ensures t.Inv() && t.mirror.saved == s.mirror.saved && t.mirror.cur == s.mirror.cur
      && t.mirror.past == s.mirror.past
  {
    hide SP.Spool.Inv, MI.Mirror.Inv, LogOf, LowOf, Sound, MI.Mirror.Kept, TailOk, Lossless, WireOk, StreamOk;
    MI.CrashKeeps(s.mirror, t.mirror);
  }

  lemma SpoolKeeps(s: System, a: SP.Act, t: System)
    requires s.Inv() && Step(s, MSpool(a), t)
    ensures t.Inv()
  {
    hide SP.Spool.Inv, SP.Step, MI.Mirror.Inv, System.SessionsOk, System.QueueOk, System.ServeOk, System.PcOk,
      Lossless;
    SP.StepKeeps(s.spools[|s.spools| - 1], a, t.spools[|s.spools| - 1]);
    SpoolMoves(s, t.spools[|s.spools| - 1]);
  }

  lemma StepKeeps(s: System, mv: Move, t: System)
    requires s.Inv() && Step(s, mv, t)
    ensures t.Inv()
  {
    hide System.Inv, SP.Spool.Inv, MI.Mirror.Inv, MI.Crash, AgentStep, ServeStep, HelloStep, TakeStep, MessageStep;
    match mv
    case MSpool(a) => SpoolKeeps(s, a, t);
    case MWipe(gh) => WipeKeeps(s, gh, t);
    case MConnect => ConnectKeeps(s, t);
    case MCut(n) => CutKeeps(s, n, t);
    case MDrop => DropKeeps(s, t);
    case MCrash => CrashKeeps(s, t);
    case MStart(gh) => StartKeeps(s, gh, t);
    case MSource | MHeader | MList | MLoad | MPoint(_) | MOpen(_) | MRead(_) | MFlush(_) | MLost | MBeat(_, _, _) =>
      ServeKeeps(s, mv, t.conn.value);
    case MTake => TakeKeeps(s, t);
    case MClear(_, _) | MReheader | MHello(_) => HelloKeeps(s, mv, t);
    case MBatch | MSync | MSave | MGap(_) | MQuiet => MessageKeeps(s, mv, t);
    case MSwitch =>
      if HelloStep(s, mv, t) {
        HelloKeeps(s, mv, t);
      } else {
        MessageKeeps(s, mv, t);
      }
  }
}
