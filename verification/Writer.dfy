/** The spool writer and its janitor: an object whose every method is a run of the spool machine's steps. */
module Writer {
  import opened Bytes
  import opened Pcap
  import opened Recovery
  import opened Spool

  // ---- the methods' effects, as runs of machine steps ----

  function Synced(s: Spool): (t: Spool)
    requires s.Inv() && s.pc == Idle
    ensures t.Inv() && t.pc == Idle && t.starts == s.starts && t.log == s.log
  {
    SyncKeeps(s);
    PublishKeeps(SyncData(s));
    Publish(SyncData(s))
  }

  function SealedNow(s: Spool): (t: Spool)
    requires s.Inv() && CanSeal(s)
    ensures t.Inv() && t.pc == Sealed
  {
    SealKeeps(s);
    SealSyncKeeps(Seal(s));
    SealSync(Seal(s))
  }

  function NextOpened(s: Spool): (t: Spool)
    requires s.Inv() && s.pc == Sealed
    ensures t.Inv() && t.pc == Opened
    ensures t == s.(files := s.files + [EncodeGlobalHeader(s.gh)], starts := s.starts + [|s.log|], pc := Opened)
    ensures Later(s, t)
  {
    hide Spool.FilesOk, Spool.ManifestOk, Spool.HeadOk, FitsAll, Ascending, EncodeGlobalHeader, EncodeAll;
    var header := EncodeGlobalHeader(s.gh);
    CreateKeeps(s, header);
    var c := Create(s, header);
    OpenKeeps(c);
    LaterTrans(s, c, Open(c));
    assert c.files[|c.files| - 1 := header] == c.files;
    Open(c)
  }

  /** A rotation, step by step: sync, publish, seal, sync the seal, create, open, publish. */
  function Rotated(s: Spool): (t: Spool)
    requires s.Inv() && s.pc == Idle && s.starts[s.Last()] < |s.log|
    ensures t.Inv() && t.pc == Idle && t.log == s.log
  {
    hide Spool.FilesOk, Spool.ManifestOk, Spool.HeadOk, FitsAll, Ascending, EncodeGlobalHeader, EncodeAll;
    var next := NextOpened(SealedNow(Synced(s)));
    PublishKeeps(next);
    Publish(next)
  }

  /** One packet appended, then whichever of sync and rotation was due. */
  function Written(s: Spool, r: Record, sync: bool, rotate: bool): (t: Spool)
    requires s.Inv() && s.pc == Idle && Fits(r, s.gh.snaplen)
    ensures t.Inv() && t.pc == Idle && t.log == s.log + [r]
  {
    hide Spool.FilesOk, Spool.ManifestOk, Spool.HeadOk, FitsAll, Ascending, EncodeGlobalHeader, EncodeAll,
      EncodeRecord;
    WriteKeeps(s, r);
    var w := Write(s, r);
    var t := if sync then Synced(w) else w;
    if rotate then Rotated(t) else t
  }

  /** After a sync all is durable, and the head pointer tells readers so; nothing else moves. */
  lemma SyncedIs(s: Spool)
    requires s.Inv() && s.pc == Idle
    ensures var t := Synced(s);
            && t.durable == |s.log| && t == s.(durable := t.durable, headPtr := t.headPtr)
            && t.headPtr == Some(Segment(s.Last(), s.starts[s.Last()], |s.log|,
              GLOBAL_HEADER_LEN + |EncodeAll(s.log[s.starts[s.Last()]..])|, false))
  {
    hide Spool.FilesOk, Spool.ManifestOk, Spool.HeadOk, FitsAll, Ascending, EncodeAll;
    SyncKeeps(s);
    assert s.log[s.starts[s.Last()]..] == s.log[s.starts[s.Last()]..|s.log|];
  }

  /**
   After a rotation the old newest segment is sealed with its whole range, and the next,
   an empty file that starts at the head, is the published one.
   */
  lemma RotatedIs(s: Spool)
    requires s.Inv() && s.pc == Idle && s.starts[s.Last()] < |s.log|
    ensures var t, h := Rotated(s), |s.log|;
            && t.starts == s.starts + [h] && t.durable == h && t.sealed == |s.starts| == t.Last()
            && t.files == s.files + [EncodeGlobalHeader(s.gh)]
            && t.manifest == s.manifest + [s.Seg(s.Last())] && s.Seg(s.Last()).end == h
            && t.headPtr == Some(Segment(|s.starts|, h, h, GLOBAL_HEADER_LEN, false))
            && t.gh == s.gh && t.first == s.first && t.low == s.low
  {
    hide Spool.FilesOk, Spool.ManifestOk, Spool.HeadOk, FitsAll, Ascending, EncodeGlobalHeader, EncodeAll;
    SyncKeeps(s);
    assert Synced(s).Seg(s.Last()) == s.Seg(s.Last());
    var next := NextOpened(SealedNow(Synced(s)));
    assert next.log[next.starts[next.Last()]..next.durable] == [];
    EncodesSomething([]);
  }

  /**
   What was due has happened: after a sync or a rotation the packet is durable and the head
   published, and only a rotation starts a segment.
   */
  lemma WrittenIs(s: Spool, r: Record, sync: bool, rotate: bool)
    requires s.Inv() && s.pc == Idle && Fits(r, s.gh.snaplen)
    ensures var t, n := Written(s, r, sync, rotate), |s.files| - 1;
            && (if sync || rotate
                then t.durable == |s.log| + 1 && t.headPtr.Some? && t.headPtr.value.end == |s.log| + 1
                else t.durable == s.durable && t.headPtr == s.headPtr)
            && t.headPtr.Some? && t.headPtr.value.num == t.Last()
            && t.starts == (if rotate then s.starts + [|s.log| + 1] else s.starts)
            && t.files == s.files[n := s.files[n] + EncodeRecord(r)]
                          + (if rotate then [EncodeGlobalHeader(s.gh)] else [])
            && t.gh == s.gh && t.first == s.first && t.low == s.low
            && (if rotate then t.sealed == |s.starts| && |t.manifest| == |s.manifest| + 1
                else t.sealed == s.sealed && t.manifest == s.manifest)
  {
    hide Spool.FilesOk, Spool.ManifestOk, FitsAll, Ascending, EncodeGlobalHeader, EncodeAll, EncodeRecord, Synced,
      Rotated, Spool.HeadClaim, Spool.Seg;
    WriteKeeps(s, r);
    var w := Write(s, r);
    SyncedIs(w);
    var t := if sync then Synced(w) else w;
    if rotate {
      RotatedIs(t);
    }
  }

  /** What the writer keeps in memory about the spool. */
  datatype Memory = Memory(active: Segment, nextSeq: nat, sealed: map<nat, Segment>, head: nat, oldestGpidx: nat,
                           fileOffset: nat, durableLen: nat)

  /**
   The memory describes the newest segment of s, unless a new one is about to be made, and the sealed ones on
   disk.
   */
  ghost predicate Describes(m: Memory, s: Spool)
    requires s.Shape()
  {
    var n := s.Last();
    && m.head == |s.log| && m.nextSeq == |s.starts| && m.oldestGpidx == s.starts[s.first]
    && (s.pc != Sealed ==>
          && m.active == Segment(n, s.starts[n], m.head, m.active.validLen, false)
          && m.fileOffset == |s.files[|s.files| - 1]|
          && m.durableLen == GLOBAL_HEADER_LEN + |EncodeAll(s.log[s.starts[n]..s.durable])|)
    && SealedKnown(m, s)
  }

  ghost predicate SealedKnown(m: Memory, s: Spool)
    requires s.Shape()
  {
    && (forall k: nat :: k in m.sealed <==> s.first <= k < s.sealed)
    && forall k :: s.first <= k < s.sealed ==> m.sealed[k] == s.Seg(k)
  }

  lemma DescribesSealed(m: Memory, s: Spool)
    requires s.Inv() && CanSeal(s) && Describes(m, s)
    ensures Describes(m.(sealed := m.sealed[s.Last() := s.Seg(s.Last())]), SealedNow(s))
  {
    hide Spool.FilesOk, Spool.HeadOk, FitsAll, Ascending, EncodeAll;
    var t := SealedNow(s);
    assert forall k :: 0 <= k < |s.starts| ==> t.Seg(k) == s.Seg(k);
  }

  /** The memory after openNewSegment at the head. */
  function WithNewSegment(m: Memory): Memory {
    m.(active := Segment(m.nextSeq, m.head, m.head, GLOBAL_HEADER_LEN, false), nextSeq := m.nextSeq + 1,
       fileOffset := GLOBAL_HEADER_LEN, durableLen := GLOBAL_HEADER_LEN)
  }

  lemma DescribesOpened(m: Memory, s: Spool)
    requires s.Inv() && s.pc == Sealed && Describes(m, s)
    ensures m.nextSeq == |s.starts| && Describes(WithNewSegment(m), NextOpened(s))
    ensures s.durable == m.head == |s.log|
    ensures NextOpened(s) == s.(files := s.files + [EncodeGlobalHeader(s.gh)], starts := s.starts + [m.head],
      pc := Opened)
  {
    hide Spool.ManifestOk, Spool.HeadOk, FitsAll, Ascending, EncodeGlobalHeader, NextOpened, Holds;
    var t := NextOpened(s);
    assert t.log[t.starts[t.Last()]..t.durable] == [];
    assert EncodeAll([]) == [];
  }

  /** The head the writer publishes is the machine's, and publishing changes nothing it remembers. */
  lemma DescribesPublished(m: Memory, s: Spool)
    requires s.Inv() && s.pc in {Idle, Opened} && Describes(m, s)
    ensures Publish(s).Inv() && Describes(m, Publish(s))
    ensures var h := Segment(m.active.num, m.active.start, s.durable, m.durableLen, false);
            Publish(s) == s.(headPtr := Some(h), pc := Idle)
  {
    hide Spool.FilesOk, Spool.ManifestOk, Spool.HeadOk, FitsAll, Ascending, EncodeAll;
    PublishKeeps(s);
    assert forall k :: 0 <= k < |s.starts| ==> Publish(s).Seg(k) == s.Seg(k);
  }

  lemma EncodesSomething(rs: seq<Record>)
    ensures rs == [] <==> EncodeAll(rs) == []
  {
  }

  lemma DescribesWritten(m: Memory, s: Spool, r: Record)
    requires s.Inv() && s.pc == Idle && Describes(m, s) && Fits(r, s.gh.snaplen) && Write(s, r).Inv()
    ensures Describes(m.(active := m.active.(end := m.head + 1), head := m.head + 1,
                         fileOffset := m.fileOffset + |EncodeRecord(r)|), Write(s, r))
  {
    hide Spool.FilesOk, Spool.ManifestOk, Spool.HeadOk, FitsAll, EncodeRecord, EncodeAll;
    var t := Write(s, r);
    WriteKeeps(s, r);
    assert t.log[t.starts[t.Last()]..t.durable] == s.log[s.starts[s.Last()]..s.durable];
  }

  // ---- restart ----

  /** NewWriter: recover, create a segment if none is active, publish. */
  function Restarted(s: Spool, segs: seq<Segment>): (t: Spool)
    requires s.Inv() && CanRecover(s) && IsChain(Listing(s), Latest(s.manifest), s.gh.snaplen, segs)
    ensures t.Inv() && t.pc == Idle && s.log <= t.log && t.durable == |t.log|
  {
    hide Spool.FilesOk, Spool.ManifestOk, Spool.HeadOk, FitsAll, Ascending, EncodeAll, EncodeGlobalHeader, IsChain,
      Latest, Listing, Repair, ScanFile;
    RecoveredRanges(s, segs);
    RecoverKeeps(s, segs, AfterRecovery(s, segs));
    var r := AfterRecovery(s, segs);
    RecoveredLog(s, segs);
    var o := if r.pc == Sealed then NextOpened(r) else r;
    PublishKeeps(o);
    Publish(o)
  }

  lemma RecoveredLog(s: Spool, segs: seq<Segment>)
    requires s.Inv() && CanRecover(s) && IsChain(Listing(s), Latest(s.manifest), s.gh.snaplen, segs)
    ensures |segs| == |s.files|
    ensures var r := AfterRecovery(s, segs);
            s.log <= r.log && r.durable == |r.log| && (r.pc == Sealed || r.pc == Opened)
  {
    hide Spool.ManifestOk, Spool.HeadOk, FitsAll, Ascending, EncodeAll, IsChain, Latest, Listing, Repair, ScanFile;
    RecoveredRanges(s, segs);
    if s.sealed != |s.starts| {
      RecoverActiveKeeps(s, segs);
    }
  }

  /** What NewWriter puts in memory from recovery's result. */
  function Remembered(v: Recovered): Memory
    requires v.segs != []
  {
    var n := |v.segs| - 1;
    var last := v.segs[n];
    Memory(last.(sealed := false), v.nextSeq, Latest(if v.active.Some? then v.segs[..n] else v.segs),
           v.head, v.oldest, last.validLen, last.validLen)
  }

  /** Recovery keeps the history; of the active file it finds what its scan holds. */
  lemma RecoveredActive(s: Spool, segs: seq<Segment>)
    requires s.Inv() && CanRecover(s) && IsChain(Listing(s), Latest(s.manifest), s.gh.snaplen, segs)
    ensures |segs| == |s.files|
    ensures var r, n := AfterRecovery(s, segs), |segs| - 1;
            && r.starts == s.starts && r.first == s.first && r.sealed == s.sealed && |r.files| == |s.files|
            && segs[0].start == s.starts[s.first] && segs[n].end == r.durable == |r.log|
            && (s.sealed == |s.starts| <==> r.pc == Sealed)
            && (s.sealed == s.Last() ==>
                  && segs[n].start == s.starts[s.Last()] && segs[n].num == s.Last()
                  && segs[n].validLen == |r.files[n]|
                  && segs[n].validLen == GLOBAL_HEADER_LEN + |EncodeAll(r.log[s.starts[s.Last()]..r.durable])|)
  {
    hide Spool.ManifestOk, Spool.HeadOk, FitsAll, Ascending, EncodeAll, Latest, Repair, ScanFile, Holds, Carries,
      Listing, IsChain;
    RecoveredRanges(s, segs);
    EndOfLast(s);
    if s.sealed == s.Last() {
      LastRange(s, segs);
      var r, n := AfterRecovery(s, segs), |segs| - 1;
      var recs := ScanFile(s.files[n], s.gh.snaplen);
      assert r.log == s.log[..s.starts[s.Last()]] + recs;
      assert r.log[s.starts[s.Last()]..r.durable] == recs;
    }
  }

  lemma DescribesRecovered(s: Spool, v: Recovered)
    requires s.Inv() && CanRecover(s) && IsChain(Listing(s), Latest(s.manifest), s.gh.snaplen, v.segs)
    requires v.segs != [] && v.head == v.segs[|v.segs| - 1].end && v.oldest == v.segs[0].start
      && v.nextSeq == |s.starts|
    requires v.active.Some? <==> s.sealed == s.Last()
    ensures AfterRecovery(s, v.segs).Inv() && Describes(Remembered(v), AfterRecovery(s, v.segs))
    ensures v.head == AfterRecovery(s, v.segs).durable
  {
    hide Spool.FilesOk, Spool.ManifestOk, Spool.HeadOk, FitsAll, Ascending, EncodeAll, Latest, AfterRecovery,
      Listing, IsChain, SealedKnown, Later;
    RecoveredActive(s, v.segs);
    RecoverKeeps(s, v.segs, AfterRecovery(s, v.segs));
    RecoveredSealed(s, v);
  }

  lemma RecoveredSealed(s: Spool, v: Recovered)
    requires s.Inv() && CanRecover(s) && IsChain(Listing(s), Latest(s.manifest), s.gh.snaplen, v.segs)
    requires v.segs != [] && (v.active.Some? <==> s.sealed == s.Last())
    ensures AfterRecovery(s, v.segs).Inv() && SealedKnown(Remembered(v), AfterRecovery(s, v.segs))
  {
    hide Spool.FilesOk, Spool.ManifestOk, Spool.HeadOk, FitsAll, Ascending, EncodeAll, Latest, AfterRecovery,
      Listing, IsChain, Remembered, Later, Spool.Seg;
    RecoveredActive(s, v.segs);
    var r := AfterRecovery(s, v.segs);
    RecoverKeeps(s, v.segs, r);
    RecoveredRanges(s, v.segs);
    forall i | 0 <= i < s.sealed - s.first ensures v.segs[i].num == s.first + i {
      SegNum(s, s.first + i);
    }
    SealedRemembered(v, s.first, s.sealed);
    forall k | s.first <= k < s.sealed ensures Remembered(v).sealed[k] == r.Seg(k) {
      assert v.segs[k - s.first] == s.Seg(s.first + (k - s.first));
      SegStays(s, r, k);
    }
  }

  lemma SegStays(s: Spool, t: Spool, k: nat)
    requires s.Inv() && t.Inv() && Later(s, t) && k < s.sealed
    ensures k < |t.starts| && s.Seg(k) == t.Seg(k)
  {
    hide Spool.FilesOk, Spool.ManifestOk, Spool.HeadOk, FitsAll, Ascending, EncodeAll, Spool.Seg;
  }

  lemma SealedRemembered(v: Recovered, first: nat, sealed: nat)
    requires v.segs != [] && |v.segs| == sealed - first + (if v.active.Some? then 1 else 0)
    requires forall i :: 0 <= i < sealed - first ==> v.segs[i].num == first + i
    ensures forall k: nat :: k in Remembered(v).sealed <==> first <= k < sealed
    ensures forall k :: first <= k < sealed ==> Remembered(v).sealed[k] == v.segs[k - first]
  {
    var segs := if v.active.Some? then v.segs[..|v.segs| - 1] else v.segs;
    LatestOfConsecutive(segs, first);
  }

  lemma LastRange(s: Spool, segs: seq<Segment>)
    requires s.Inv() && s.pc == Down && IsChain(Listing(s), Latest(s.manifest), s.gh.snaplen, segs)
      && s.sealed == s.Last()
    requires segs[|segs| - 1].start == s.starts[s.Last()]
    ensures var n := |segs| - 1;
            var recs := ScanFile(s.files[n], s.gh.snaplen);
            && segs[n] == Segment(s.Last(), s.starts[s.Last()], s.starts[s.Last()] + |recs|,
              GLOBAL_HEADER_LEN + |EncodeAll(recs)|, false)
            && |Repair(s.files[n], s.gh)| == GLOBAL_HEADER_LEN + |EncodeAll(recs)|
  {
    hide Spool.FilesOk, Spool.ManifestOk, Spool.HeadOk, FitsAll, Ascending, EncodeAll, Latest, Repair, ScanFile,
      HeaderOk, Holds;
    var n := |segs| - 1;
    SealedNumbers(s);
    assert RangeOk(Listing(s), Latest(s.manifest), s.gh.snaplen, segs, n);
    var recs := ScanFile(s.files[n], s.gh.snaplen);
    RepairHolds(s.files[n], s.gh);
    HoldsCarries(Repair(s.files[n], s.gh), recs, 0);
  }

  lemma HeadIsIn(s: seq<Segment>)
    ensures s == [] || s[0] in s
  {
  }

  lemma DirectoryFacts(s: Spool)
    requires s.Inv()
    ensures 0 < |s.files| && |s.starts| == s.first + |s.files| && |s.starts| - 1 <= s.sealed <= |s.starts|
  {
    hide Spool.FilesOk, Spool.ManifestOk, Spool.HeadOk;
  }

  lemma ChainsAgree(s: Spool, snaplen: u32, segs: seq<Segment>)
    requires s.Inv() && IsChain(Listing(s), Latest(s.manifest), snaplen, segs)
    ensures forall other :: IsChain(Listing(s), Latest(s.manifest), snaplen, other) ==> other == segs
    ensures |segs| == |s.files|
  {
    hide IsChain, Listing, Latest, Spool.Inv;
    forall other | IsChain(Listing(s), Latest(s.manifest), snaplen, other) ensures other == segs {
      SameChain(Listing(s), Latest(s.manifest), snaplen, other, segs);
    }
    ChainLength(Listing(s), Latest(s.manifest), snaplen, segs);
  }

  lemma ChainLength(files: seq<SegFile>, m: map<nat, Segment>, snaplen: u32, segs: seq<Segment>)
    requires IsChain(files, m, snaplen, segs)
    ensures |segs| == |files|
  {
  }

  /** What NewWriter has in memory when it returns. */
  function StartMemory(v: Recovered): Memory
    requires v.segs != []
  {
    if v.active.Some? then Remembered(v) else WithNewSegment(Remembered(v))
  }

  /** What recovery reports of a crashed spool's listing. */
  predicate Reports(s: Spool, gh: GlobalHeader, v: Recovered)
    requires s.Inv()
  {
    var n := |s.files| - 1;
    && |v.segs| == |s.files| > 0 && v.head == v.segs[n].end && v.oldest == v.segs[0].start && v.nextSeq == |s.starts|
    && (v.active.Some? <==> s.sealed == s.Last())
    && (v.active.Some? ==> v.lastData == Some(Repair(s.files[n], gh)))
    && v.reseal == []
  }

  /** Every file but the newest is sealed, so recovery has nothing to re-seal. */
  lemma Reported(s: Spool, gh: GlobalHeader, v: Recovered)
    requires s.Inv() && s.pc == Down && |v.segs| == |s.files| && v.segs != []
    requires var files, m, n := Listing(s), Latest(s.manifest), |s.files| - 1;
             && v.head == v.segs[n].end && v.oldest == v.segs[0].start && v.nextSeq == files[n].num + 1
             && v.active == (if files[n].num in m then None else Some(v.segs[n]))
             && v.lastData == (if v.active.Some? then Some(Repair(files[n].data, gh)) else None)
             && (forall e :: e in v.reseal <==> exists i :: 0 <= i < n && files[i].num !in m && v.segs[i] == e)
    ensures Reports(s, gh, v)
  {
    hide Spool.FilesOk, Spool.ManifestOk, Spool.HeadOk, Latest, Repair;
    SealedNumbers(s);
    HeadIsIn(v.reseal);
  }

  /** The memory and the disk after a restart of an anchored spool with its own header. */
  lemma RestartIs(s: Spool, v: Recovered)
    requires s.Inv() && CanRecover(s) && IsChain(Listing(s), Latest(s.manifest), s.gh.snaplen, v.segs)
    requires Reports(s, s.gh, v)
    ensures var t, m, n := Restarted(s, v.segs), StartMemory(v), |s.files| - 1;
            && t.Inv() && Describes(m, t)
            && t == Spool(s.gh, s.first,
                          if v.active.Some? then s.files[n := Repair(s.files[n], s.gh)]
                            else s.files + [EncodeGlobalHeader(s.gh)],
                          s.manifest, Some(Segment(m.active.num, m.active.start, v.head, m.durableLen, false)),
                          t.log, t.starts, t.sealed, v.head, t.low, Idle)
  {
    hide Spool.FilesOk, Spool.ManifestOk, Spool.HeadOk, FitsAll, Ascending, EncodeAll, EncodeGlobalHeader, IsChain,
      Latest, Listing, NextOpened, Repair, ScanFile, Describes, Spool.HeadNow;
    DescribesRecovered(s, v);
    RecoveredLog(s, v.segs);
    var r := AfterRecovery(s, v.segs);
    RecoverKeeps(s, v.segs, r);
    if v.active.Some? {
      DescribesPublished(Remembered(v), r);
    } else {
      DescribesOpened(Remembered(v), r);
      DescribesPublished(WithNewSegment(Remembered(v)), NextOpened(r));
    }
  }

  // ---- retention ----

  /** Bytes on disk, oldest file first. */
  function TotalBytes(files: seq<bytes>): nat {
    if files == [] then 0 else |files[0]| + TotalBytes(files[1..])
  }

  /** n oldest files unlinked, one after the other. */
  function ReapedBy(s: Spool, n: nat): (t: Spool)
    requires s.Inv() && s.pc == Idle && n < |s.files|
    ensures t.Inv() && t.pc == Idle && |t.files| == |s.files| - n
    decreases n
  {
    hide Spool.Inv;
    if n == 0 then s
    else
      var t := ReapedBy(s, n - 1);
      ReapKeeps(t);
      Reap(t)
  }

  /** Only the oldest files are gone; nothing else has changed, and nothing durable is lost. */
  lemma {:induction false} ReapedByIs(s: Spool, n: nat)
    requires s.Inv() && s.pc == Idle && n < |s.files|
    ensures var t := ReapedBy(s, n);
            t == s.(first := s.first + n, files := s.files[n..], low := t.low) && Later(s, t)
    decreases n
  {
    hide Spool.Inv, Later;
    if n == 0 {
      LaterRefl(s);
    } else {
      ReapedByIs(s, n - 1);
      var t := ReapedBy(s, n - 1);
      ReapKeeps(t);
      LaterTrans(s, t, Reap(t));
    }
  }

  lemma ReapedNext(s: Spool, n: nat)
    requires s.Inv() && s.pc == Idle && n + 1 < |s.files|
    ensures ReapedBy(s, n + 1) == Reap(ReapedBy(s, n))
  {
    hide Spool.Inv, Reap;
  }

  /** The total does not depend on the order or grouping of the files. */
  lemma {:induction false} TotalBytesAdds(a: seq<bytes>, b: seq<bytes>, f: bytes)
    ensures TotalBytes(a + b) == TotalBytes(a) + TotalBytes(b) && TotalBytes([f]) == |f|
  {
    if a == [] {
      assert a + b == b;
    } else {
      TotalBytesAdds(a[1..], b, f);
      assert (a + b)[1..] == a[1..] + b;
    }
  }

  /** A cap that holds the active file and the newest sealed one keeps a sealed file on disk. */
  lemma CapKeepsSealed(files: seq<bytes>, n: nat, maxBytes: nat)
    requires n < |files| && |files| >= 2
    requires n > 0 ==> TotalBytes(files[n - 1..]) > maxBytes
    requires maxBytes >= |files[|files| - 1]| + |files[|files| - 2]|
    ensures |files[n..]| >= 2
  {
    var m := |files| - 1;
    assert files[m - 1..][1..] == files[m..] && |files[m..][1..]| == 0;
    assert TotalBytes(files[m..]) == |files[m]| + TotalBytes(files[m..][1..]);
    assert TotalBytes(files[m - 1..]) == |files[m - 1]| + TotalBytes(files[m..]);
  }

  lemma ActiveIsNewest(m: Memory, s: Spool)
    requires s.Inv() && s.pc == Idle && Describes(m, s)
    ensures 1 <= |s.files| == m.active.num - s.first + 1 && s.first < |s.starts| && m.oldestGpidx == s.starts[s.first]
  {
    hide Spool.FilesOk, Spool.ManifestOk, Spool.HeadOk, FitsAll, Ascending, EncodeAll;
  }

  lemma ReapedByNone(s: Spool)
    requires s.Inv() && s.pc == Idle && 0 < |s.files|
    ensures ReapedBy(s, 0) == s
  {
    hide Spool.Inv;
  }

  lemma ReapFacts(m: Memory, s: Spool)
    requires s.Inv() && s.pc == Idle && Describes(m, s) && |s.files| >= 2
    ensures s.first in m.sealed && s.first + 1 < |s.starts|
  {
    hide Spool.FilesOk, Spool.ManifestOk, Spool.HeadOk, FitsAll, EncodeAll, Ascending;
    IdleIsUnsealed(s);
  }

  lemma DescribesReaped(m: Memory, s: Spool)
    requires s.Inv() && s.pc == Idle && Describes(m, s) && |s.files| >= 2
    ensures Reap(s).Inv() && s.first in m.sealed
    ensures Describes(m.(sealed := m.sealed - {s.first}, oldestGpidx := Max(m.sealed[s.first].end, m.oldestGpidx)),
      Reap(s))
  {
    hide Spool.FilesOk, Spool.ManifestOk, Spool.HeadOk, FitsAll, EncodeAll, Ascending;
    ReapKeeps(s);
    IdleIsUnsealed(s);
    s.EndBound(s.first);
    var t := Reap(s);
    assert forall k :: t.first <= k < t.sealed ==> t.Seg(k) == s.Seg(k);
  }

  lemma HeadIsLast(m: Memory, s: Spool)
    requires s.Inv() && Describes(m, s)
    ensures m.head == |s.log| && 0 <= s.Last() && s.starts[s.Last()] <= s.durable <= |s.log|
  {
    hide Spool.FilesOk, Spool.ManifestOk, Spool.HeadOk, FitsAll, EncodeAll, Ascending;
  }

  class SpoolWriter {
    const gh: GlobalHeader
    const rotateBytes: nat
    const syncBytes: nat
    // the directory
    var first: nat
    var files: seq<bytes>
    var manifest: seq<Segment>
    var headPtr: Option<Segment>
    // in memory
    var active: Segment
    var nextSeq: nat
    var sealed: map<nat, Segment>
    var head: nat
    var oldestGpidx: nat
    var fileOffset: nat
    var durableLen: nat
    var durableEnd: nat
    var pendingBytes: nat
    // the machine's history
    ghost var log: seq<Record>
    ghost var starts: seq<nat>
    ghost var sealedCount: nat
    ghost var low: nat
    ghost var pc: Pc

    ghost function S(): Spool
      reads this
    {
      Spool(gh, first, files, manifest, headPtr, log, starts, sealedCount, durableEnd, low, pc)
    }

    ghost function M(): Memory
      reads this
    {
      Memory(active, nextSeq, sealed, head, oldestGpidx, fileOffset, durableLen)
    }

    ghost predicate Valid()
      reads this
    {
      S().Inv() && Describes(M(), S())
    }

    /**
     NewWriter over the directory a crash left: recover, re-seal, reopen the active
     file or create the next one, publish. `s` is the crashed spool it starts from.
     Whatever the disk and the header, the writer goes on from the one chain recovery
     finds; if the disk is anchored and the header the same, that is the true state.
     */
    constructor (gh: GlobalHeader, rotateBytes: nat, syncBytes: nat, first: nat, files: seq<bytes>,
                 manifest: seq<Segment>, headPtr: Option<Segment>, ghost s: Spool)
      requires s.Inv() && s.pc == Down
      requires first == s.first && files == s.files && manifest == s.manifest && headPtr == s.headPtr
      ensures exists segs :: IsChain(Listing(s), Latest(s.manifest), gh.snaplen, segs)
      ensures forall segs: seq<Segment> :: IsChain(Listing(s), Latest(s.manifest), gh.snaplen, segs) ==>
        && |segs| == |files| > 0 && head == segs[|files| - 1].end && oldestGpidx == segs[0].start
        && active.start == (if s.sealed == |s.starts| then head else segs[|files| - 1].start)
        && this.headPtr == Some(Segment(active.num, active.start, head, durableLen, false))
      ensures CanRecover(s) && gh == s.gh ==> Valid() && pc == Idle
      ensures CanRecover(s) && gh == s.gh ==>
        forall segs :: IsChain(Listing(s), Latest(s.manifest), s.gh.snaplen, segs) ==> S() == Restarted(s, segs)
    {
      hide Spool.Inv, EncodeAll, EncodeGlobalHeader, IsChain, Latest, Describes, Repair, ScanFile, Restarted,
        SegUnder;
      DirectoryFacts(s);
      var listing := seq(|files|, i requires 0 <= i < |files| => SegFile(first + i, files[i]));
      assert listing == Listing(s);
      var r := RecoverSpool(listing, manifest, gh);
      ghost var segs := ChainUnder(s, gh.snaplen);
      var v := r.value;
      var n := |files| - 1;
      ChainsAgree(s, gh.snaplen, v.segs);
      Reported(s, gh, v);
      ghost var good := CanRecover(s) && gh == s.gh;
      ghost var t := s;
      if good {
        RestartIs(s, v);
        t := Restarted(s, v.segs);
      }
      var m := StartMemory(v);
      this.gh, this.rotateBytes, this.syncBytes := gh, rotateBytes, syncBytes;
      this.first, this.manifest := first, manifest + v.reseal;
      this.files := if v.active.Some? then files[n := v.lastData.value] else files + [EncodeGlobalHeader(gh)];
      active, nextSeq, sealed, head, oldestGpidx := m.active, m.nextSeq, m.sealed, m.head, m.oldestGpidx;
      fileOffset, durableLen, durableEnd, pendingBytes := m.fileOffset, m.durableLen, v.head, 0;
      this.headPtr := Some(Segment(m.active.num, m.active.start, v.head, m.durableLen, false));
      log, starts, sealedCount, low, pc := t.log, t.starts, t.sealed, t.low, t.pc;
      new;
      assert M() == m;
      assert good ==> S() == t;
    }

    method PublishHead()
      requires Valid() && pc in {Idle, Opened}
      modifies this`headPtr, this`pc
      ensures Valid() && S() == Publish(old(S()))
    {
      hide Spool.Inv, Describes, EncodeAll, Spool.HeadNow;
      DescribesPublished(M(), S());
      headPtr := Some(Segment(active.num, active.start, durableEnd, durableLen, false));
      pc := Idle;
    }

    method Sync()
      requires Valid() && pc == Idle
      modifies this`durableLen, this`durableEnd, this`pendingBytes, this`headPtr, this`pc
      ensures Valid() && S() == Synced(old(S())) && pendingBytes == 0
    {
      hide Spool.FilesOk, Spool.ManifestOk, Spool.HeadOk, FitsAll, Ascending, EncodeAll;
      SyncKeeps(S());
      ActiveLength(S());
      durableLen := fileOffset;
      durableEnd := head;
      pendingBytes := 0;
      PublishHead();
    }

    /** Append the entry and sync the manifest; a crash in between may lose it. */
    method SealToManifest(seg: Segment)
      requires Valid() && CanSeal(S()) && seg == S().Seg(S().Last())
      modifies this`manifest, this`sealed, this`sealedCount, this`pc
      ensures Valid() && S() == SealedNow(old(S()))
    {
      hide Spool.FilesOk, Spool.ManifestOk, Spool.HeadOk, FitsAll, Ascending, EncodeAll;
      DescribesSealed(M(), S());
      ghost var t := SealedNow(S());
      manifest := manifest + [seg];
      sealed := sealed[seg.num := seg];
      sealedCount, pc := |starts|, Sealed;
    }

    method OpenNewSegment(num: nat, start: nat)
      requires Valid() && pc == Sealed && num == |starts| && start == head
      modifies this`files, this`starts, this`active, this`fileOffset, this`durableLen, this`durableEnd,
        this`pendingBytes,
        this`pc, this`nextSeq
      ensures Valid() && pendingBytes == 0 && S() == NextOpened(old(S()))
    {
      hide Spool.Inv, Describes, EncodeGlobalHeader, EncodeAll, NextOpened;
      ghost var m, t := WithNewSegment(M()), NextOpened(S());
      DescribesOpened(M(), S());
      files, starts := files + [EncodeGlobalHeader(gh)], starts + [start];
      active, nextSeq, pc := Segment(num, start, start, GLOBAL_HEADER_LEN, false), num + 1, Opened;
      fileOffset, durableLen, durableEnd, pendingBytes := GLOBAL_HEADER_LEN, GLOBAL_HEADER_LEN, start, 0;
      assert S() == t && M() == m;
    }

    method Rotate()
      requires Valid() && pc == Idle && starts[S().Last()] < head
      modifies this
      ensures Valid() && S() == Rotated(old(S())) && pendingBytes == 0 && active.start == active.end == head
    {
      hide Spool.FilesOk, Spool.ManifestOk, Spool.HeadOk, FitsAll, Ascending, EncodeAll, EncodeGlobalHeader;
      Sync();
      SealToManifest(Segment(active.num, active.start, durableEnd, durableLen, true));
      OpenNewSegment(nextSeq, head);
      PublishHead();
    }

    /** WritePacket; syncDue and rotateDue are the clock's say. */
    method WritePacket(rec: Record, syncDue: bool, rotateDue: bool) returns (gpidx: nat)
      requires Valid() && pc == Idle && Fits(rec, gh.snaplen)
      modifies this
      ensures Valid() && gpidx == old(head)
      ensures var r := if rec.origLen == 0 then rec.(origLen := |rec.data|) else rec;
              var size := |EncodeRecord(r)|;
              && log == old(log) + [r] && log[gpidx] == r
              && S() == Written(old(S()), r, old(pendingBytes) + size >= syncBytes || syncDue,
                                old(fileOffset) + size >= rotateBytes || rotateDue)
              && (old(pendingBytes) + size >= syncBytes || syncDue
                  || old(fileOffset) + size >= rotateBytes || rotateDue ==>
                    durableEnd == head && headPtr.Some? && headPtr.value.end == head && pendingBytes == 0)
              && (old(fileOffset) + size >= rotateBytes || rotateDue ==>
                    starts == old(starts) + [head] && active.start == active.end == head)
    {
      hide Spool.Inv, Describes, EncodeRecord, Synced, Rotated;
      var r := if rec.origLen == 0 then rec.(origLen := |rec.data|) else rec;
      gpidx := head;
      ghost var size := |EncodeRecord(r)|;
      WrittenIs(S(), r, pendingBytes + size >= syncBytes || syncDue, fileOffset + size >= rotateBytes || rotateDue);
      HeadIsLast(M(), S());
      AppendRecord(r);
      if pendingBytes >= syncBytes || syncDue {
        Sync();
      }
      HeadIsLast(M(), S());
      if fileOffset >= rotateBytes || rotateDue {
        Rotate();
      }
      HeadIsLast(M(), S());
    }

    method AppendRecord(r: Record)
      requires Valid() && pc == Idle && Fits(r, gh.snaplen)
      modifies this`files, this`log, this`head, this`active, this`fileOffset, this`pendingBytes
      ensures Valid() && S() == Write(old(S()), r)
      ensures fileOffset == old(fileOffset) + |EncodeRecord(r)| && pendingBytes == old(pendingBytes) + |EncodeRecord(r)|
    {
      hide Spool.Inv, Describes, EncodeRecord;
      var buf := EncodeRecord(r);
      DirectoryFacts(S());
      WriteKeeps(S(), r);
      DescribesWritten(M(), S(), r);
      ghost var t := Write(S(), r);
      files, log := files[|files| - 1 := files[|files| - 1] + buf], log + [r];
      head, active := head + 1, active.(end := head + 1);
      fileOffset, pendingBytes := fileOffset + |buf|, pendingBytes + |buf|;
      assert S() == t;
    }

    /** Tick: flush and rotate on time; an empty segment is never rotated. */
    method Tick(syncDue: bool, rotateDue: bool)
      requires Valid() && pc == Idle
      modifies this
      ensures Valid() && log == old(log)
      ensures var s := if old(pendingBytes) > 0 && syncDue then Synced(old(S())) else old(S());
              S() == if s.starts[s.Last()] < |s.log| && rotateDue then Rotated(s) else s
    {
      hide Spool.FilesOk, Spool.ManifestOk, Spool.HeadOk, FitsAll, Ascending, EncodeRecord, EncodeAll, Synced,
        Rotated;
      if pendingBytes > 0 && syncDue {
        Sync();
      }
      ActiveLength(S());
      EncodesSomething(log[starts[S().Last()]..|log|]);
      if fileOffset > GLOBAL_HEADER_LEN && rotateDue {
        Rotate();
      }
    }

    method SpoolBytes() returns (total: nat)
      ensures total == TotalBytes(files)
    {
      total := 0;
      var i := |files|;
      while i > 0
        invariant 0 <= i <= |files| && total == TotalBytes(files[i..])
      {
        i := i - 1;
        assert files[i..][1..] == files[i + 1..];
        total := |files[i]| + total;
      }
      assert files[0..] == files;
    }

    /**
     Reap: delete sealed files oldest first while over the cap. Only a prefix goes,
     never the active file, never past a locked one, and never one file too many.
     */
    method ReapOver(maxBytes: nat, locked: set<nat>) returns (deleted: nat)
      requires Valid() && pc == Idle
      modifies this`first, this`files, this`sealed, this`oldestGpidx, this`low
      ensures Valid() && deleted < |old(files)| && S() == ReapedBy(old(S()), deleted)
      ensures maxBytes == 0 ==> deleted == 0
      ensures maxBytes > 0 ==> TotalBytes(files) <= maxBytes || first in locked || |files| == 1
      ensures forall k :: old(first) <= k < first ==> k !in locked
      ensures deleted > 0 ==> TotalBytes(old(files)[deleted - 1..]) > maxBytes
      ensures oldestGpidx == starts[first]
    {
      hide Spool.Inv, Describes, TotalBytes, Reap, ReapedBy;
      ActiveIsNewest(M(), S());
      deleted := 0;
      ReapedByNone(S());
      if maxBytes == 0 {
        return;
      }
      var total := SpoolBytes();
      while total > maxBytes && first != active.num
        invariant Valid() && pc == Idle && deleted < |old(files)| && S() == ReapedBy(old(S()), deleted)
        invariant total == TotalBytes(files) && 1 <= |files| == active.num - first + 1
        invariant first < |starts| && oldestGpidx == starts[first]
        invariant forall k :: old(first) <= k < first ==> k !in locked
        invariant files == old(files)[deleted..]
        invariant deleted > 0 ==> TotalBytes(old(files)[deleted - 1..]) > maxBytes
        decreases |old(files)| - deleted
      {
        if first in locked {
          break;
        }
        ReapedNext(old(S()), deleted);
        var size := DeleteOldest();
        ActiveIsNewest(M(), S());
        total, deleted := total - size, deleted + 1;
      }
    }

    method DeleteOldest() returns (size: nat)
      requires Valid() && pc == Idle && |files| >= 2
      modifies this`first, this`files, this`sealed, this`oldestGpidx, this`low
      ensures Valid() && S() == Reap(old(S())) && size == |old(files)[0]|
      ensures files == old(files)[1..] && first == old(first) + 1
      ensures TotalBytes(files) == TotalBytes(old(files)) - size
    {
      hide Spool.Inv, Describes;
      ReapFacts(M(), S());
      DescribesReaped(M(), S());
      size := |files[0]|;
      oldestGpidx := Max(sealed[first].end, oldestGpidx);
      sealed := sealed - {first};
      low := Max(low, starts[first + 1]);
      files, first := files[1..], first + 1;
    }
  }
}
