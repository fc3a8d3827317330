/** What the mirror's sessions hold, judged against the logs of the spool instances they came from. */
module History {
  import opened Bytes
  import opened Pcap
  import opened Mirror

  function End(x: Session): nat { x.start + |x.recs| }

  predicate Contains(x: Session, g: nat) { x.start <= g < End(x) }

  /** The session holds exactly its epoch's log records, gpidx for gpidx. */
  predicate TrueSession(logs: seq<seq<Record>>, x: Session) {
    && x.epoch.Some? && x.epoch.value < |logs| && End(x) <= |logs[x.epoch.value]|
    && x.recs == logs[x.epoch.value][x.start..End(x)]
  }

  /** y may be the session after x: a later epoch, or past x with only reaped packets between. */
  predicate Succeeds(lows: seq<nat>, x: Session, y: Session) {
    && x.epoch.Some? && y.epoch.Some?
    && if x.epoch == y.epoch
       then y.epoch.value < |lows| && End(x) <= y.start <= lows[y.epoch.value]
       else x.epoch.value < y.epoch.value
  }

  /** logs[e] is the durable log of spool instance e; gpidx below lows[e] have left its disk. */
  predicate Sound(ss: seq<Session>, logs: seq<seq<Record>>, lows: seq<nat>) {
    && ss != [] && ss[0].start == 0
    && (forall k :: 0 <= k < |ss| ==> TrueSession(logs, ss[k]))
    && (forall k :: 0 < k < |ss| ==> Succeeds(lows, ss[k - 1], ss[k]))
  }

  predicate Grown(logs: seq<seq<Record>>, lows: seq<nat>, logs': seq<seq<Record>>, lows': seq<nat>) {
    && |logs| <= |logs'| && |lows| <= |lows'|
    && (forall e :: 0 <= e < |logs| ==> logs[e] <= logs'[e])
    && (forall e :: 0 <= e < |lows| ==> lows[e] <= lows'[e])
  }

  /** Whatever the agents do, what the mirror holds stays right. */
  lemma SoundGrows(ss: seq<Session>, logs: seq<seq<Record>>, lows: seq<nat>, logs': seq<seq<Record>>, lows': seq<nat>)
    requires Sound(ss, logs, lows) && Grown(logs, lows, logs', lows')
    ensures Sound(ss, logs', lows')
  {
    forall k | 0 <= k < |ss| ensures TrueSession(logs', ss[k]) {
      var x := ss[k];
      var log, log' := logs[x.epoch.value], logs'[x.epoch.value];
      assert log'[..|log|] == log;
      SliceOfPrefix(log', |log|, x.start, End(x));
    }
    forall k | 0 < k < |ss| ensures Succeeds(lows', ss[k - 1], ss[k]) {
      assert Succeeds(lows, ss[k - 1], ss[k]);
      assert TrueSession(logs, ss[k]);
    }
  }

  /** Commit more of the log to the current session. */
  lemma SoundExtends(past: seq<Session>, x: Session, y: Session, logs: seq<seq<Record>>, lows: seq<nat>)
    requires Sound(past + [x], logs, lows) && TrueSession(logs, y) && y.epoch == x.epoch && y.start == x.start
    ensures Sound(past + [y], logs, lows)
  {
    hide TrueSession;
    var ss, tt := past + [x], past + [y];
    forall k | 0 <= k < |tt| ensures TrueSession(logs, tt[k]) {
      assert TrueSession(logs, ss[k]);
    }
    forall k | 0 < k < |tt| ensures Succeeds(lows, tt[k - 1], tt[k]) {
      assert Succeeds(lows, ss[k - 1], ss[k]);
    }
  }

  /** Open a new session. */
  lemma SoundRotates(ss: seq<Session>, y: Session, logs: seq<seq<Record>>, lows: seq<nat>)
    requires Sound(ss, logs, lows) && TrueSession(logs, y) && Succeeds(lows, ss[|ss| - 1], y)
    ensures Sound(ss + [y], logs, lows)
  {
    hide TrueSession, Succeeds;
    var tt := ss + [y];
    forall k | 0 < k < |tt| ensures Succeeds(lows, tt[k - 1], tt[k]) {
      assert k < |ss| ==> Succeeds(lows, ss[k - 1], ss[k]);
    }
  }

  lemma {:induction false} Ordered(ss: seq<Session>, logs: seq<seq<Record>>, lows: seq<nat>, i: nat, j: nat)
    requires Sound(ss, logs, lows) && i < j < |ss|
    ensures ss[i].epoch.Some? && ss[j].epoch.Some? && ss[i].epoch.value <= ss[j].epoch.value
    ensures ss[i].epoch == ss[j].epoch ==> End(ss[i]) <= ss[j].start
    decreases j
  {
    assert Succeeds(lows, ss[j - 1], ss[j]);
    if i < j - 1 {
      Ordered(ss, logs, lows, i, j - 1);
    }
  }

  /** No packet is in two sessions. */
  lemma AtMostOnce(ss: seq<Session>, logs: seq<seq<Record>>, lows: seq<nat>, i: nat, j: nat, g: nat)
    requires Sound(ss, logs, lows) && i < |ss| && j < |ss| && ss[i].epoch == ss[j].epoch
    requires Contains(ss[i], g) && Contains(ss[j], g)
    ensures i == j
  {
    if i < j {
      Ordered(ss, logs, lows, i, j);
    } else if j < i {
      Ordered(ss, logs, lows, j, i);
    }
  }

  /**
   Below the end of any session of an epoch, from the epoch's first session on, every packet is held or was
   reaped.
   */
  lemma {:induction false} NoneMissing(ss: seq<Session>, logs: seq<seq<Record>>, lows: seq<nat>, f: nat, k: nat, g: nat)
    requires Sound(ss, logs, lows) && f <= k < |ss| && ss[f].epoch == ss[k].epoch
    requires ss[f].start <= g < End(ss[k])
    ensures ss[k].epoch.Some? && ss[k].epoch.value < |logs|
    ensures Contains(ss[k], g) || (ss[k].epoch.value < |lows| && g < lows[ss[k].epoch.value])
    ensures Contains(ss[k], g) ==> ss[k].recs[g - ss[k].start] == logs[ss[k].epoch.value][g]
  {
    assert TrueSession(logs, ss[k]);
    if f < k {
      Ordered(ss, logs, lows, f, k);
      if f < k - 1 {
        Ordered(ss, logs, lows, f, k - 1);
      }
      assert Succeeds(lows, ss[k - 1], ss[k]);
    }
  }

  /** What lies below an epoch's first session is in none of its sessions, and never will be. */
  lemma SkippedForGood(ss: seq<Session>, logs: seq<seq<Record>>, lows: seq<nat>, f: nat, k: nat, g: nat)
    requires Sound(ss, logs, lows) && f < |ss| && k < |ss| && ss[f].epoch == ss[k].epoch
    requires f == 0 || ss[f - 1].epoch != ss[f].epoch
    requires g < ss[f].start
    ensures !Contains(ss[k], g)
  {
    if f < k {
      Ordered(ss, logs, lows, f, k);
    } else if k < f {
      Ordered(ss, logs, lows, k, f);
      assert Succeeds(lows, ss[f - 1], ss[f]);
      if k < f - 1 {
        Ordered(ss, logs, lows, k, f - 1);
      }
    }
  }
}
