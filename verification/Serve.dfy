/** The serve loop: tail the spool, cut batches, announce gaps. */
module Serve {
  import opened Bytes
  import opened Pcap
  import opened Recovery
  import opened Wire
  import opened Reader
  import opened Stream

  const DEFAULT_MAX_PACKETS := 256
  const DEFAULT_MAX_BYTES := 0x10_0000

  /** The loop's byte count for a batch: record headers and bodies. */
  function Weight(rs: seq<Record>): nat {
    if rs == [] then 0 else Weight(rs[..|rs| - 1]) + RECORD_HEADER_LEN + |rs[|rs| - 1].data|
  }

  lemma WeightSnoc(rs: seq<Record>, r: Record)
    ensures Weight(rs + [r]) == Weight(rs) + RECORD_HEADER_LEN + |r.data|
  {
    assert (rs + [r])[..|rs|] == rs;
  }

  /** A batch the limits allow: the packet that crossed the byte limit is its last. */
  predicate Sized(e: Event, maxPackets: nat, maxBytes: nat, snaplen: u32) {
    e.Batch? ==>
      |e.recs| <= maxPackets && Weight(e.recs) <= maxBytes - 1 + RECORD_HEADER_LEN + snaplen
  }

  predicate AllSized(evs: seq<Event>, maxPackets: nat, maxBytes: nat, snaplen: u32) {
    forall i :: 0 <= i < |evs| ==> Sized(evs[i], maxPackets, maxBytes, snaplen)
  }

  lemma {:induction false} PayloadLen(rs: seq<Record>)
    ensures |EncodePkts(ToWireAll(rs))| == Weight(rs) + 4 * |rs|
  {
    hide EncodePkt;
    if rs != [] {
      var n := |rs| - 1;
      PayloadLen(rs[..n]);
      assert ToWireAll(rs) == ToWireAll(rs[..n]) + [ToWire(rs[n])];
      EncodePktsSnoc(ToWireAll(rs[..n]), ToWire(rs[n]));
    }
  }

  /** The payload of every batch the loop emits, bounded. */
  lemma SizeBound(e: Event, maxPackets: nat, maxBytes: nat, snaplen: u32)
    requires e.Batch? && Sized(e, maxPackets, maxBytes, snaplen)
    ensures |EncodeBatch(ToWireAll(e.recs))| <= 2 + (maxBytes - 1) + RECORD_HEADER_LEN + snaplen + 4 * maxPackets
  {
    hide Weight, EncodePkts, ToWireAll;
    PayloadLen(e.recs);
  }

  /** With the default limits and a snaplen of 65536, neither the u16 count nor the frame cap is hit. */
  lemma DefaultsFit(e: Event, snaplen: u32)
    requires e.Batch? && Sized(e, DEFAULT_MAX_PACKETS, DEFAULT_MAX_BYTES, snaplen)
    requires snaplen <= 65536
    ensures |e.recs| < TWO16 && |EncodeBatch(ToWireAll(e.recs))| < MAX_PAYLOAD_LEN
  {
    hide Weight, EncodeBatch;
    SizeBound(e, DEFAULT_MAX_PACKETS, DEFAULT_MAX_BYTES, snaplen);
  }

  /** What one pass of the loop can see: the refreshes it may make and the files. */
  datatype Tick = Tick(obs: seq<Obs>, reopen: Obs, disk: set<nat>, content: map<nat, bytes>, beat: bool)

  /** Every refresh of the pass is a true view of w, none beginning above the retention bound. */
  ghost predicate TickOk(t: Tick, w: World, low: nat) {
    && |t.obs| == 2 && Backed(w, t.content)
    && (forall i :: 0 <= i < 2 ==> TrueView(w, View(t.obs[i])) && OldestOf(View(t.obs[i])) <= low)
    && TrueView(w, View(t.reopen)) && OldestOf(View(t.reopen)) <= low
  }

  /** From one pass to the next the spool only grows. */
  ghost predicate Endure(ws: seq<World>, lows: seq<nat>, i: nat)
    requires i + 1 < |ws| && |ws| == |lows|
  {
    Grows(ws[i], ws[i + 1]) && lows[i] <= lows[i + 1] && FitsAll(ws[i + 1].dlog, ws[i + 1].snaplen)
  }

  /** Where the stream promised to begin: a reaped resume point promises nothing before its gap. */
  function OpeningPoint(view: seq<Segment>, resume: nat): nat {
    if OpenAt(view, resume).1 then 0 else OpenAt(view, resume).0
  }

  // ---- one pass, as a function ----

  /** The loop's state: what the reader sees, where it stands, and what is pending. */
  datatype Tail = Tail(view: seq<Segment>, pos: nat, batch: seq<Record>)

  /** A pass leaves a state and what it sent. */
  datatype Pass = Pass(tail: Tail, sent: seq<Event>)

  datatype Limits = Limits(packets: nat, bytes: nat)

  function Flushed(t: Tail): Pass
    requires |t.batch| <= t.pos
  {
    if t.batch == [] then Pass(t, []) else Pass(t.(batch := []), [Batch(t.pos - |t.batch|, t.batch)])
  }

  lemma FlushedTail(t: Tail)
    requires |t.batch| <= t.pos
    ensures Flushed(t).tail == t.(batch := [])
  {
  }

  function Pushed(t: Tail, rec: Record, limits: Limits): Pass
    requires |t.batch| <= t.pos
  {
    var u := t.(pos := t.pos + 1, batch := t.batch + [rec]);
    if |u.batch| >= limits.packets || Weight(u.batch) >= limits.bytes then Flushed(u) else Pass(u, [])
  }

  function Reopened(t: Tail, view: seq<Segment>): Pass
    requires |t.batch| <= t.pos
  {
    var p, from := Flushed(t), OpenAt(view, t.pos).0;
    Pass(p.tail.(view := view, pos := from), p.sent + [Gap(t.pos, from)])
  }

  /** What one pass does, given what the reader said, the view it then had, and the view a reopening would get. */
  function Turned(t: Tail, r: Outcome, view: seq<Segment>, reopen: seq<Segment>, beat: bool, limits: Limits): Pass
    requires |t.batch| <= t.pos
  {
    var u := t.(view := view);
    match r
    case Got(rec, _) =>
      var p := Pushed(u, rec, limits);
      if beat then p.(sent := p.sent + [Quiet]) else p
    case NoData => var p := Flushed(u); p.(sent := p.sent + [Quiet])
    case Reaped => Reopened(u, reopen)
    case Gone => Pass(u, [])
    case Bad => Pass(u, [])
  }

  /** The records that events carry, in order. */
  function Carried(evs: seq<Event>): seq<Record> {
    if evs == [] then [] else (if evs[0].Batch? then evs[0].recs else []) + Carried(evs[1..])
  }

  lemma CarriedOnce(evs: seq<Event>)
    requires |evs| <= 2 && (|evs| == 2 ==> !evs[1].Batch?)
    ensures Carried(evs) == if evs != [] && evs[0].Batch? then evs[0].recs else []
  {
    assert |evs| > 1 ==> Carried(evs[1..]) == Carried(evs[1..][1..]);
  }

  /** No pass loses, repeats or reorders a packet: it sends or keeps pending what was pending and what was read. */
  lemma PassConserves(t: Tail, r: Outcome, view: seq<Segment>, reopen: seq<Segment>, beat: bool, limits: Limits)
    requires |t.batch| <= t.pos
    ensures var p := Turned(t, r, view, reopen, beat, limits);
            Carried(p.sent) + p.tail.batch == t.batch + if r.Got? then [r.rec] else []
  {
    hide Weight, OpenAt;
    var p := Turned(t, r, view, reopen, beat, limits);
    CarriedOnce(p.sent);
    assert t.batch + [] == t.batch && [] + t.batch == t.batch;
  }

  /**
   What a pass ships. A reader with nothing to give, or one overtaken by retention, leaves
   nothing pending; a packet that reaches a limit goes out with its batch; a beat comes
   last, and so does the gap that a reopening announces.
   */
  lemma PassShips(t: Tail, r: Outcome, view: seq<Segment>, reopen: seq<Segment>, beat: bool, limits: Limits)
    requires |t.batch| <= t.pos
    ensures var p := Turned(t, r, view, reopen, beat, limits);
            var all := t.batch + if r.Got? then [r.rec] else [];
            var due := match r
                       case Got(_, _) => |all| >= limits.packets || Weight(all) >= limits.bytes
                       case NoData => true
                       case Reaped => true
                       case _ => false;
            && p.tail.batch == (if due then [] else all)
            && (due && all != [] ==> p.sent != [] && p.sent[0] == Batch(t.pos - |t.batch|, all))
            && (forall i :: 0 <= i < |p.sent| && p.sent[i].Batch? ==> due && i == 0)
            && (r.NoData? || (r.Got? && beat) ==> p.sent != [] && p.sent[|p.sent| - 1] == Quiet)
            && (r.Reaped? ==> p.sent != [] && p.sent[|p.sent| - 1] == Gap(t.pos, p.tail.pos))
            && p.tail.pos == (if r.Got? then t.pos + 1 else if r.Reaped? then OpenAt(reopen, t.pos).0 else t.pos)
            && p.tail.view == (if r.Reaped? then reopen else view)
            && ((exists i :: 0 <= i < |p.sent| && p.sent[i].Quiet?) <==> r.NoData? || (r.Got? && beat))
            && ((exists i :: 0 <= i < |p.sent| && p.sent[i].Gap?) <==> r.Reaped?)
  {
    hide Weight, OpenAt;
  }

  class Streamer {
    const maxPackets: nat
    const maxBytes: nat
    const snaplen: u32
    var reader: TailReader
    var from: nat            // the start advertised in the preamble
    var batch: seq<Record>
    var batchBytes: nat
    var base: nat
    var out: seq<Event>
    ghost var start: nat

    /** The reader's view is true of w and begins at or below the retention bound. */
    ghost predicate ReaderOk(w: World, low: nat)
      reads this, reader
    {
      reader.Valid(w) && OldestOf(reader.view) <= low && reader.gpidx <= |w.dlog|
    }

    /** What is pending is the log between its base and the reader. */
    ghost predicate PendingOk(w: World)
      reads this, reader
    {
      && batchBytes == Weight(batch)
      && (batch != [] ==> base + |batch| == reader.gpidx <= |w.dlog| && batch == w.dlog[base..reader.gpidx])
    }

    /** What is out is a lawful stream that ends where the pending batch, or the reader, begins. */
    ghost predicate OutOk(w: World, low: nat)
      reads this, reader
    {
      && Flows(w.dlog, low, start, out) && Tip(start, out) == (if batch == [] then reader.gpidx else base)
      && AllSized(out, maxPackets, maxBytes, snaplen)
    }

    ghost function State(): Tail
      reads this, reader
    {
      Tail(reader.view, reader.gpidx, batch)
    }

    ghost function Max(): Limits { Limits(maxPackets, maxBytes) }

    ghost predicate Small()
      reads this
    {
      |batch| < maxPackets && batchBytes < maxBytes
    }

    ghost predicate Valid(w: World, low: nat)
      reads this, reader
    {
      ReaderOk(w, low) && PendingOk(w) && OutOk(w, low) && Small()
    }

    /** RunServe up to its loop. */
    constructor (packets: int, bytes: int, snaplen: u32, resume: nat, o: Obs, ghost w: World, ghost low: nat)
      requires TrueView(w, View(o)) && OldestOf(View(o)) <= low
      ensures Valid(w, low) && fresh(reader) && start == OpeningPoint(View(o), resume) <= resume
      ensures from == OpenAt(View(o), resume).0 == reader.gpidx <= |w.dlog|
      ensures out == if OpenAt(View(o), resume).1 then [Gap(resume, from)] else []
      ensures maxPackets == (if packets <= 0 then DEFAULT_MAX_PACKETS else packets)
      ensures maxBytes == (if bytes <= 0 then DEFAULT_MAX_BYTES else bytes)
    {
      hide TrueView, View;
      maxPackets := if packets <= 0 then DEFAULT_MAX_PACKETS else packets;
      maxBytes := if bytes <= 0 then DEFAULT_MAX_BYTES else bytes;
      this.snaplen := snaplen;
      var r := new TailReader(o, resume, w);
      var at := OpenAt(r.view, resume);
      OpenInLog(w, r.view, resume);
      reader, from := r, at.0;
      batch, batchBytes, base := [], 0, 0;
      out := if at.1 then [Gap(resume, at.0)] else [];
      start := OpeningPoint(r.view, resume);
      new;
      if at.1 {
        FlowsSnoc(w.dlog, low, start, [], Gap(resume, at.0));
        assert [Gap(resume, at.0)] == [] + [Gap(resume, at.0)];
      }
    }

    /** Emit one event. */
    method Send(e: Event, ghost w: World, ghost low: nat)
      requires Flows(w.dlog, low, start, out) && Sends(w.dlog, low, Tip(start, out), e)
      requires AllSized(out, maxPackets, maxBytes, snaplen) && Sized(e, maxPackets, maxBytes, snaplen)
      modifies this`out
      ensures out == old(out) + [e] && Flows(w.dlog, low, start, out)
      ensures Tip(start, out) == Past(old(Tip(start, out)), e)
      ensures AllSized(out, maxPackets, maxBytes, snaplen)
    {
      hide Flows, Tip, Sends, Sized, Past;
      FlowsSnoc(w.dlog, low, start, out, e);
      out := out + [e];
    }

    method Flush(ghost w: World, ghost low: nat)
      requires ReaderOk(w, low) && PendingOk(w) && OutOk(w, low) && maxPackets > 0 && maxBytes > 0
      requires batch != [] ==> Sized(Batch(base, batch), maxPackets, maxBytes, snaplen)
      modifies this`out, this`batch, this`batchBytes
      ensures Valid(w, low) && |old(batch)| <= reader.gpidx
      ensures Pass(State(), out) == Pass(Flushed(old(State())).tail, old(out) + Flushed(old(State())).sent)
    {
      hide TailReader.Valid, Flows, Tip, AllSized, Sized;
      if batch == [] {
        return;
      }
      Send(Batch(base, batch), w, low);
      batch, batchBytes := [], 0;
    }

    /** Take a record into the batch, and flush at the limits. */
    method Push(rec: Record, gp: nat, ghost w: World, ghost low: nat)
      requires ReaderOk(w, low) && Small() && batchBytes == Weight(batch)
      requires gp + 1 == reader.gpidx && rec == w.dlog[gp] && Fits(rec, snaplen)
      requires batch != [] ==> base + |batch| == gp && batch == w.dlog[base..gp]
      requires Flows(w.dlog, low, start, out) && Tip(start, out) == (if batch == [] then gp else base)
      requires AllSized(out, maxPackets, maxBytes, snaplen)
      modifies this`out, this`batch, this`batchBytes, this`base
      ensures Valid(w, low) && |old(batch)| <= gp
      ensures var p := Pushed(Tail(reader.view, gp, old(batch)), rec, Max());
              State() == p.tail && out == old(out) + p.sent
    {
      hide TailReader.Valid, Flows, Tip, AllSized, Weight;
      WeightSnoc(batch, rec);
      if batch == [] {
        base := gp;
      }
      batch := batch + [rec];
      batchBytes := batchBytes + RECORD_HEADER_LEN + |rec.data|;
      if |batch| >= maxPackets || batchBytes >= maxBytes {
        Flush(w, low);
      }
    }

    /** After ErrReaped: a new reader at the lost position, and a gap up to where it begins. */
    method Reopen(o: Obs, ghost w: World, ghost low: nat)
      requires Valid(w, low) && batch == [] && reader.gpidx < OldestOf(reader.view)
      requires TrueView(w, View(o)) && OldestOf(View(o)) <= low
      modifies this`reader, this`out
      ensures Valid(w, low) && fresh(reader) && start == old(start)
      ensures reader.view == View(o) && reader.gpidx == OpenAt(View(o), old(reader.gpidx)).0
      ensures out == old(out) + [Gap(old(reader.gpidx), reader.gpidx)]
    {
      hide TailReader.Valid, Flows, Tip, AllSized, TrueView, View;
      var lost := reader.gpidx;
      var r := new TailReader(o, lost, w);
      OpenInLog(w, r.view, lost);
      reader := r;
      Send(Gap(lost, r.gpidx), w, low);
    }

    /** One pass of the loop; false when the connection must end. `r` and `view` are what the reader came to. */
    method Turn(t: Tick, ghost w: World, ghost low: nat) returns (alive: bool, ghost r: Outcome,
        ghost view: seq<Segment>)
      requires Valid(w, low) && TickOk(t, w, low)
      modifies this, reader
      ensures Valid(w, low) && (reader == old(reader) || fresh(reader)) && start == old(start)
      ensures view == old(reader.view) || exists i :: 0 <= i < 2 && view == View(t.obs[i])
      ensures r.Got? ==> old(reader.gpidx) < |w.dlog| && r.rec == w.dlog[old(reader.gpidx)] && Fits(r.rec, snaplen)
      ensures r.NoData? ==> exists i :: 0 <= i < 2 && view == View(t.obs[i])
      ensures r.NoData? ==> forall i :: 0 <= i < |view| ==> !Owns(view[i], old(reader.gpidx))
      ensures r.Reaped? ==> old(reader.gpidx) < OldestOf(view)
      ensures r.Gone? ==> exists i :: 0 <= i < |view| && Owns(view[i], old(reader.gpidx)) && view[i].num !in t.disk
      ensures r.Bad? ==> old(reader.gpidx) < |w.dlog| && !Fits(w.dlog[old(reader.gpidx)], snaplen)
      ensures alive <==> !r.Gone? && !r.Bad?
      ensures |old(batch)| <= old(reader.gpidx)
      ensures var p := Turned(old(State()), r, view, View(t.reopen), t.beat, Max());
              State() == p.tail && out == old(out) + p.sent
    {
      hide TailReader.Valid, Flows, Tip, AllSized, TrueView, View, Backed, Weight, Flushed, Pushed, Owns;
      var outcome := reader.Next(t.obs, t.disk, t.content, snaplen, w);
      r, view := outcome, reader.view;
      match outcome
      case Got(rec, gp) =>
        Push(rec, gp, w, low);
        if t.beat {
          Send(Quiet, w, low);
        }
        alive := true;
      case NoData =>
        FlushedTail(State());
        Flush(w, low);
        Send(Quiet, w, low);
        alive := true;
      case Reaped =>
        FlushedTail(State());
        Flush(w, low);
        Reopen(t.reopen, w, low);
        alive := true;
      case Gone =>
        alive := false;
      case Bad =>
        alive := false;
    }

    /** The loop. Pass i sees the world ws[i]; the spool only grows in between. */
    method Run(ticks: seq<Tick>, ghost ws: seq<World>, ghost lows: seq<nat>)
      requires |ws| == |lows| == |ticks| + 1 && Valid(ws[0], lows[0])
      requires forall i :: 0 <= i < |ticks| ==> TickOk(ticks[i], ws[i], lows[i]) && Endure(ws, lows, i)
      modifies this, reader
      ensures exists i :: 0 <= i <= |ticks| && Valid(ws[i], lows[i])
      ensures old(out) <= out && start == old(start)
    {
      hide Streamer.Valid, TickOk, Grows, FitsAll;
      for i := 0 to |ticks|
        invariant Valid(ws[i], lows[i]) && old(out) <= out && start == old(start)
        invariant reader == old(reader) || fresh(reader)
      {
        var alive, _, _ := Turn(ticks[i], ws[i], lows[i]);
        if !alive {
          return;
        }
        Endures(ws[i], lows[i], ws[i + 1], lows[i + 1]);
      }
    }

    /** What the spool does between two passes spoils nothing. */
    lemma Endures(w: World, low: nat, w': World, low': nat)
      requires Valid(w, low) && Grows(w, w') && low <= low' && FitsAll(w'.dlog, w'.snaplen)
      ensures Valid(w', low')
    {
      hide TailReader.Valid, Flows, Tip, FitsAll, AllSized;
      reader.StaysValid(w, w');
      FlowsLater(w.dlog, low, w'.dlog, low', start, out);
      assert w'.dlog[..|w.dlog|] == w.dlog;
      if batch != [] {
        SliceOfPrefix(w'.dlog, |w.dlog|, base, reader.gpidx);
      }
    }
  }
}
