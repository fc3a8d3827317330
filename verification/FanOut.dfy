/** The PCAP-over-IP fan-out: one client's stream of the mirror. */
module FanOut {
  import opened Bytes
  import opened Pcap
  import opened Mirror

  /** Snapshot: the published session and durable length. */
  function DurableLen(m: Mirror): nat { GLOBAL_HEADER_LEN + |EncodeAll(m.cur)| }

  /** Later, in the same collector process: the same session with no less in it, or a later one. */
  predicate Evolves(m: Mirror, n: Mirror) {
    m.saved.session < n.saved.session || (m.saved.session == n.saved.session && m.cur <= n.cur)
  }

  lemma StepEvolves(m: Mirror, a: Act, n: Mirror)
    requires m.Inv() && Step(m, a, n) && a != ACrash && m.pc != Off
    ensures n.Inv() && n.pc != Off && Evolves(m, n)
  {
    hide EncodeAll, Body, Carries, EncodeGlobalHeader, OpenSession;
    StepKeeps(m, a, n);
  }

  lemma EvolvesTrans(m: Mirror, n: Mirror, p: Mirror)
    requires Evolves(m, n) && Evolves(n, p)
    ensures Evolves(m, p)
  {
  }

  /** While a collector runs, the session file carries every committed record, up to the durable length. */
  lemma CarriesCommitted(m: Mirror)
    requires m.Inv() && m.pc != Off
    ensures m.saved.session in m.files && (m.cur != [] ==> Carries(m.files[m.saved.session], m.cur))
    ensures DurableLen(m) == OffsetOf(m.cur, |m.cur|)
  {
    hide EncodeAll;
    assert m.cur[..|m.cur|] == m.cur;
    if m.pc.Wrote? || m.pc.Flushed? {
      EncodeAllAppend(m.cur, m.pc.recs);
    }
  }

  /** The first record from n on that exceeds the snaplen, or the end. */
  function FitEnd(rs: seq<Record>, n: nat, snaplen: u32): (m: nat)
    requires n <= |rs|
    ensures n <= m <= |rs| && (m < |rs| ==> !Fits(rs[m], snaplen))
    ensures forall i :: n <= i < m ==> Fits(rs[i], snaplen)
    ensures m == |rs| <==> forall i :: n <= i < |rs| ==> Fits(rs[i], snaplen)
    decreases |rs| - n
  {
    if n == |rs| || !Fits(rs[n], snaplen) then n else FitEnd(rs, n + 1, snaplen)
  }

  /** A reader that got as far as it could goes on from there when more is committed. */
  lemma FitEndGrows(had: seq<Record>, rs: seq<Record>, n: nat, snaplen: u32)
    requires had <= rs && n <= |had|
    ensures FitEnd(rs, n, snaplen) == FitEnd(rs, FitEnd(had, n, snaplen), snaplen)
    decreases |had| - n
  {
    if n < |had| {
      assert rs[n] == had[n];
      if Fits(had[n], snaplen) {
        FitEndGrows(had, rs, n + 1, snaplen);
      }
    }
  }

  /** The inner loop: what lies between the cursor and the durable length, up to the first record that does not fit. */
  method Pump(file: bytes, from: nat, limit: nat, snaplen: u32, ghost rs: seq<Record>, ghost n: nat)
    returns (out: bytes, cursor: nat)
    requires rs != [] ==> Carries(file, rs)
    requires FitsAll(rs, ENCODABLE) && n <= |rs| && from == OffsetOf(rs, n) && limit == OffsetOf(rs, |rs|)
    ensures out == EncodeAll(rs[n..FitEnd(rs, n, snaplen)]) && cursor == OffsetOf(rs, FitEnd(rs, n, snaplen))
  {
    hide EncodeAll, FitsAll, Carries, ReadRecordAt, EncodeRecord, Fits;
    out, cursor := [], from;
    ghost var k := n;
    assert rs[n..n] == [] && EncodeAll([]) == [] by { EmptyEncoding(); }
    ReadsFitting(file, rs, k, limit, snaplen);
    var r := ReadRecordAt(file, cursor, limit, snaplen);
    while r.Read?
      invariant n <= k <= |rs| && cursor == OffsetOf(rs, k) && out == EncodeAll(rs[n..k])
      invariant r == if k == |rs| then NotYet
                     else if Fits(rs[k], snaplen) then Read(rs[k], OffsetOf(rs, k + 1)) else BadRecord
      invariant FitEnd(rs, n, snaplen) == FitEnd(rs, k, snaplen)
      decreases |rs| - k
    {
      EncodeAllSnoc(rs[n..k], rs[k]);
      assert rs[n..k + 1] == rs[n..k] + [rs[k]];
      out := out + EncodeRecord(r.rec);
      cursor := r.next;
      k := k + 1;
      ReadsFitting(file, rs, k, limit, snaplen);
      r := ReadRecordAt(file, cursor, limit, snaplen);
    }
  }

  /** The mirrors a client's polls see, oldest first. */
  predicate Polls(ms: seq<Mirror>) {
    && ms != []
    && (forall i :: 0 <= i < |ms| ==> ms[i].Inv() && ms[i].pc != Off && FitsAll(ms[i].cur, ENCODABLE))
    && (forall i, j :: 0 <= i < j < |ms| ==> Evolves(ms[i], ms[j]))
  }

  /** A mirror's states while its collector does not crash. */
  predicate Lives(ms: seq<Mirror>, acts: seq<Act>) {
    && |ms| == |acts| + 1 && ms[0].Inv() && ms[0].pc != Off
    && forall i :: 0 <= i < |acts| ==> ms[i].Inv() && Step(ms[i], acts[i], ms[i + 1]) && acts[i] != ACrash
  }

  lemma {:induction false} LivesOn(ms: seq<Mirror>, acts: seq<Act>, i: nat)
    requires Lives(ms, acts) && i < |ms|
    ensures ms[i].Inv() && ms[i].pc != Off
  {
    hide Mirror.Inv, Step;
    if i > 0 {
      LivesOn(ms, acts, i - 1);
      assert Step(ms[i - 1], acts[i - 1], ms[i - 1 + 1]);
      StepEvolves(ms[i - 1], acts[i - 1], ms[i]);
    }
  }

  lemma {:induction false} LivesEvolves(ms: seq<Mirror>, acts: seq<Act>, i: nat, j: nat)
    requires Lives(ms, acts) && i < j < |ms|
    ensures Evolves(ms[i], ms[j])
    decreases j
  {
    hide Mirror.Inv, Step, Evolves;
    LivesOn(ms, acts, j - 1);
    assert Step(ms[j - 1], acts[j - 1], ms[j - 1 + 1]);
    StepEvolves(ms[j - 1], acts[j - 1], ms[j]);
    if i < j - 1 {
      LivesEvolves(ms, acts, i, j - 1);
      EvolvesTrans(ms[i], ms[j - 1], ms[j]);
    }
  }

  /** What a client polls while the collector lives is what Serve asks for, at whatever moments it polls. */
  lemma LivesPolls(ms: seq<Mirror>, acts: seq<Act>, at: seq<nat>)
    requires Lives(ms, acts) && at != [] && forall i :: 0 <= i < |at| ==> at[i] < |ms|
    requires forall i, j :: 0 <= i < j < |at| ==> at[i] <= at[j]
    requires forall i :: 0 <= i < |ms| ==> FitsAll(ms[i].cur, ENCODABLE)
    ensures Polls(seq(|at|, i requires 0 <= i < |at| => ms[at[i]]))
  {
    hide Mirror.Inv, Step, FitsAll;
    forall i | 0 <= i < |at| ensures ms[at[i]].Inv() && ms[at[i]].pc != Off {
      LivesOn(ms, acts, at[i]);
    }
    forall i, j | 0 <= i < j < |at| ensures Evolves(ms[at[i]], ms[at[j]]) {
      if at[i] < at[j] {
        LivesEvolves(ms, acts, at[i], at[j]);
      }
    }
  }

  /** What a client that connected with n records committed can have been sent of rs. */
  function Streamed(rs: seq<Record>, n: nat, snaplen: u32): seq<Record>
    requires n <= |rs|
  {
    rs[n..FitEnd(rs, n, snaplen)]
  }

  /**
   serve, over any number of polls. The client gets one global header and then whole
   consecutive records of the session it connected to, from the commit point at connect
   on, none past the commit point of the last poll before that session ended: all up to
   it, or all before the first that exceeds the snaplen it was told. `last` is that poll.
   */
  method Serve(ms: seq<Mirror>, gh: GlobalHeader) returns (sent: bytes, last: nat)
    requires Polls(ms)
    ensures last < |ms| && ms[last].saved.session == ms[0].saved.session && ms[0].cur <= ms[last].cur
    ensures last + 1 < |ms| ==> ms[last + 1].saved.session != ms[0].saved.session
    ensures var rs, n := ms[last].cur, |ms[0].cur|;
            sent == EncodeGlobalHeader(gh) + EncodeAll(rs[n..FitEnd(rs, n, gh.snaplen)])
  {
    hide EncodeAll, FitsAll, Carries, EncodeGlobalHeader, Mirror.Inv, FitEnd, OffsetOf, DurableLen;
    var session, cursor := ms[0].saved.session, DurableLen(ms[0]);
    ghost var n := |ms[0].cur|;
    sent, last := EncodeGlobalHeader(gh), 0;
    ghost var head := sent;
    CarriesCommitted(ms[0]);
    NothingStreamed(ms[0].cur, gh.snaplen);
    for i := 1 to |ms|
      invariant last == i - 1 && ms[last].saved.session == session && n <= |ms[last].cur|
      invariant ms[0].cur <= ms[last].cur && cursor == OffsetOf(ms[last].cur, FitEnd(ms[last].cur, n, gh.snaplen))
      invariant sent == head + EncodeAll(Streamed(ms[last].cur, n, gh.snaplen))
    {
      if ms[i].saved.session != session {
        return;
      }
      assert Evolves(ms[last], ms[i]) && Evolves(ms[0], ms[i]);
      ghost var had, rs := ms[last].cur, ms[i].cur;
      ghost var m := FitEnd(had, n, gh.snaplen);
      CarriesCommitted(ms[i]);
      StreamGrows(had, rs, n, gh.snaplen);
      var out, next := Pump(ms[i].files[session], cursor, DurableLen(ms[i]), gh.snaplen, rs, m);
      sent, cursor, last := sent + out, next, i;
    }
  }

  lemma NothingStreamed(rs: seq<Record>, snaplen: u32)
    ensures FitEnd(rs, |rs|, snaplen) == |rs| && EncodeAll(Streamed(rs, |rs|, snaplen)) == []
  {
    EmptyEncoding();
  }

  lemma StreamGrows(had: seq<Record>, rs: seq<Record>, n: nat, snaplen: u32)
    requires had <= rs && n <= |had|
    ensures var m := FitEnd(had, n, snaplen);
            && FitEnd(rs, n, snaplen) == FitEnd(rs, m, snaplen) && OffsetOf(had, m) == OffsetOf(rs, m)
            && EncodeAll(Streamed(rs, n, snaplen))
               == EncodeAll(Streamed(had, n, snaplen)) + EncodeAll(rs[m..FitEnd(rs, m, snaplen)])
  {
    hide EncodeAll, FitEnd;
    var m := FitEnd(had, n, snaplen);
    FitEndGrows(had, rs, n, snaplen);
    var z := FitEnd(rs, m, snaplen);
    assert had[..m] == rs[..m];
    SameSlice(had, rs, m, n, m);
    EncodeAllAppend(rs[n..m], rs[m..z]);
    SliceJoin(rs, n, m, z);
  }
}
