/** What the serve side may put on the link, as events over one spool's durable log. */
module Stream {
  import opened Pcap
  import opened Wire

  datatype Event =
    | Batch(base: nat, recs: seq<Record>)
    | Gap(from: nat, to: nat)
    | Quiet  // heartbeats, stats and keys: no gpidx travels with them

  /** The next gpidx the stream has promised, after e. */
  function Past(p: nat, e: Event): nat {
    match e
    case Batch(base, recs) => base + |recs|
    case Gap(_, to) => to
    case Quiet => p
  }

  /** e may follow at position p: packets straight from the log, or a gap over what retention dropped. */
  predicate Sends(log: seq<Record>, low: nat, p: nat, e: Event) {
    match e
    case Batch(base, recs) => recs != [] && base == p && base + |recs| <= |log| && recs == log[base..base + |recs|]
    case Gap(_, to) => to <= low
    case Quiet => true
  }

  /** What the collector gets of an event: the link converts its records. */
  function Landed(e: Event): Event {
    if e.Batch? then Batch(e.base, OverLinkAll(e.recs)) else e
  }

  lemma LandedSends(log: seq<Record>, low: nat, p: nat, e: Event)
    requires Sends(log, low, p, e)
    ensures Sends(OverLinkAll(log), low, p, Landed(e)) && Past(p, Landed(e)) == Past(p, e)
  {
    hide OverLinkAll;
    if e.Batch? {
      OverLinkSlice(log, e.base, e.base + |e.recs|);
    }
  }

  predicate Flows(log: seq<Record>, low: nat, p: nat, evs: seq<Event>)
    decreases |evs|
  {
    evs == [] || (Sends(log, low, p, evs[0]) && Flows(log, low, Past(p, evs[0]), evs[1..]))
  }

  function Tip(p: nat, evs: seq<Event>): nat
    decreases |evs|
  {
    if evs == [] then p else Tip(Past(p, evs[0]), evs[1..])
  }

  lemma {:induction false} FlowsSnoc(log: seq<Record>, low: nat, p: nat, evs: seq<Event>, e: Event)
    requires Flows(log, low, p, evs) && Sends(log, low, Tip(p, evs), e)
    ensures Flows(log, low, p, evs + [e]) && Tip(p, evs + [e]) == Past(Tip(p, evs), e)
    decreases |evs|
  {
    hide Sends, Past;
    if evs == [] {
      assert evs + [e] == [e] && [e][1..] == [];
    } else {
      FlowsSnoc(log, low, Past(p, evs[0]), evs[1..], e);
      assert (evs + [e])[1..] == evs[1..] + [e];
    }
  }

  lemma SendsLater(log: seq<Record>, low: nat, log': seq<Record>, low': nat, p: nat, e: Event)
    requires Sends(log, low, p, e) && log <= log' && low <= low'
    ensures Sends(log', low', p, e)
  {
  }

  lemma {:induction false} FlowsLater(log: seq<Record>, low: nat, log': seq<Record>, low': nat, p: nat, evs: seq<Event>)
    requires Flows(log, low, p, evs) && log <= log' && low <= low'
    ensures Flows(log', low', p, evs)
    decreases |evs|
  {
    if evs != [] {
      FlowsLater(log, low, log', low', Past(p, evs[0]), evs[1..]);
    }
  }

  lemma {:induction false} FlowsPrefix(log: seq<Record>, low: nat, p: nat, evs: seq<Event>, n: nat)
    requires Flows(log, low, p, evs) && n <= |evs|
    ensures Flows(log, low, p, evs[..n])
    decreases |evs|
  {
    hide Sends, Past;
    if n > 0 {
      FlowsPrefix(log, low, Past(p, evs[0]), evs[1..], n - 1);
      assert evs[..n][1..] == evs[1..][..n - 1];
    }
  }

  predicate AllQuiet(evs: seq<Event>) {
    forall i :: 0 <= i < |evs| ==> evs[i].Quiet?
  }

  /**
   The shape of a stream, batch by batch: its records are the log's at its base, and
   its base is the opening position, the end of the batch before it, or the end of a
   gap sent since, wherever quiet frames fall.
   */
  lemma {:induction false} BatchBase(log: seq<Record>, low: nat, p: nat, evs: seq<Event>, j: int, i: nat)
    requires Flows(log, low, p, evs) && -1 <= j < i < |evs| && evs[i].Batch?
    requires AllQuiet(evs[j + 1..i]) && (j >= 0 ==> !evs[j].Quiet?)
    ensures var b := evs[i];
            && b.recs != [] && b.base + |b.recs| <= |log|
            && (forall k :: 0 <= k < |b.recs| ==> b.recs[k] == log[b.base + k])
            && b.base == if j < 0 then p else if evs[j].Batch? then evs[j].base + |evs[j].recs| else evs[j].to
    decreases |evs|
  {
    if i > 0 {
      var rest := evs[1..];
      assert j >= 0 ==> rest[j..i - 1] == evs[j + 1..i];
      if j < 0 {
        assert evs[0] == evs[0..i][0];
        assert rest[0..i - 1] == evs[0..i][1..];
        BatchBase(log, low, p, rest, -1, i - 1);
      } else {
        BatchBase(log, low, Past(p, evs[0]), rest, j - 1, i - 1);
      }
    }
  }
}
