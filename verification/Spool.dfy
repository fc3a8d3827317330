/**
 The spool as a state machine over its durable steps. Segment numbers count up
 from 0, so a number indexes the whole history of segments; the directory holds
 the files [first, |starts|). `log` is the history of assignments: log[g] is the
 record that was given gpidx g.
 */
module Spool {
  import opened Bytes
  import opened Pcap
  import opened Recovery

  /** Where the writer is between two durable steps. */
  datatype Pc =
    | Idle     // appending to the newest file
    | Sealing  // its manifest entry is written but not yet synced
    | Sealed   // the entry is synced; the next file does not exist yet
    | Created  // the next file exists; nothing of it is synced
    | Opened   // the newest file is ready; the head pointer does not name it yet
    | Down     // no writer: crashed, or not yet recovered

  predicate Ascending(starts: seq<nat>) {
    forall i, j :: 0 <= i < j < |starts| ==> starts[i] < starts[j]
  }

  datatype Spool = Spool(
    gh: GlobalHeader,
    first: nat,                // oldest segment still on disk
    files: seq<bytes>,         // files[i] is segment first + i
    manifest: seq<Segment>,    // sealed-segment log, in append order
    headPtr: Option<Segment>,  // what head.json says
    log: seq<Record>,
    starts: seq<nat>,          // starts[k]: first gpidx of segment k
    sealed: nat,               // segments [0, sealed) have synced manifest entries
    durable: nat,              // gpidx [0, durable) are synced
    low: nat,                  // gpidx [0, low) have left the disk at some time
    pc: Pc)
  {
    function Last(): int { |starts| - 1 }

    function End(k: nat): nat
      requires k < |starts|
    {
      EndOf(log, starts, k)
    }

    predicate Shape() {
      && 0 < |files| && |starts| == first + |files| && starts[0] == 0
      && Ascending(starts)
      && starts[Last()] <= durable <= |log|
      && starts[first] <= low <= durable
      && Last() <= sealed <= |starts|
      && FitsAll(log, gh.snaplen)
    }

    function Range(k: nat): seq<Record>
      requires Shape() && k < |starts|
    {
      EndBound(k);
      log[starts[k]..End(k)]
    }

    lemma EndBound(k: nat)
      requires Shape() && k < |starts|
      ensures starts[k] <= End(k) <= |log|
      ensures k < Last() ==> End(k) <= starts[Last()]
    {
    }

    /** Segment k's true, final description. */
    function Seg(k: nat): Segment
      requires Shape() && k < |starts|
    {
      EndBound(k);
      ExactSeg(k, log, starts[k], End(k))
    }

    function File(k: nat): bytes
      requires Shape() && first <= k < |starts|
    {
      files[k - first]
    }

    /** The durable log: all that a reader may ever be told about. */
    function DLog(): seq<Record>
      requires Shape()
    {
      log[..durable]
    }

    /** Bytes of the newest file that are known to be synced. */
    function SyncedLen(): nat
      requires Shape()
    {
      if pc == Created || (pc == Down && durable == starts[Last()]) then 0
      else GLOBAL_HEADER_LEN + |EncodeAll(log[starts[Last()]..durable])|
    }

    predicate FilesOk()
      requires Shape()
    {
      && (forall k :: first <= k < Last() ==> Holds(File(k), Range(k)))
      && (pc != Idle ==> durable == |log|)
      && (pc in {Sealing, Sealed} || sealed == |starts| ==> starts[Last()] < |log|)
      && (pc in {Idle, Sealing, Sealed, Opened} || sealed == |starts| ==> Holds(File(Last()), Range(Last())))
      && (pc == Created ==> |files| >= 2 && starts[Last()] == |log|)
      && (pc == Down && starts[Last()] < |log| ==> HeaderOk(File(Last())) && Carries(File(Last()), Range(Last())))
    }

    predicate ManifestOk()
      requires Shape()
    {
      && (forall e :: e in manifest ==> e.num < |starts| && e == Seg(e.num))
      && (forall k :: 0 <= k < sealed ==> Seg(k) in manifest)
      && (pc == Sealed ==> sealed == |starts|)
      && (pc in {Idle, Sealing, Created, Opened} ==> sealed == Last())
      && (pc == Sealing ==> manifest != [] && manifest[|manifest| - 1] == Seg(Last())
                            && forall e :: e in manifest[..|manifest| - 1] ==> e.num < Last())
      && (pc != Sealing && sealed == Last() ==> forall e :: e in manifest ==> e.num < Last())
    }

    /** What a published head may claim: synced records of one of the two newest segments. */
    predicate HeadClaim(h: Segment)
      requires Shape()
    {
      && Last() - 1 <= h.num <= Last()
      && h.start == starts[h.num] && h.start <= h.end <= End(h.num) && h.end <= durable
      && h.validLen == GLOBAL_HEADER_LEN + |EncodeAll(log[h.start..h.end])|
      && (h.num < sealed || pc == Sealing ==> h.end == End(h.num))
      && (sealed == |starts| || pc == Sealing ==> h.num == Last())
      && (pc == Created ==> h.num < Last())
    }

    predicate HeadOk()
      requires Shape()
    {
      && (headPtr.Some? ==> HeadClaim(headPtr.value))
      && (pc == Idle ==> headPtr.Some? && headPtr.value.num == Last())
    }

    predicate Inv() {
      Shape() && FilesOk() && ManifestOk() && HeadOk()
    }

    /** The head pointer publishHead would write now. */
    function HeadNow(): Segment
      requires Shape()
    {
      ExactSeg(Last(), log, starts[Last()], durable).(sealed := false)
    }
  }

  /** The spool right after its first NewWriter: one empty segment, published. */
  function Init(gh: GlobalHeader): Spool {
    Spool(gh, 0, [EncodeGlobalHeader(gh)], [], Some(Segment(0, 0, 0, GLOBAL_HEADER_LEN, false)), [], [0], 0, 0, 0, Idle)
  }

  // ---- the writer's steps ----

  function Write(s: Spool, r: Record): Spool
    requires s.Inv() && s.pc == Idle && Fits(r, s.gh.snaplen)
  {
    s.(files := s.files[|s.files| - 1 := s.files[|s.files| - 1] + EncodeRecord(r)], log := s.log + [r])
  }

  function SyncData(s: Spool): Spool
    requires s.Inv() && s.pc == Idle
  {
    s.(durable := |s.log|)
  }

  function Publish(s: Spool): Spool
    requires s.Inv() && s.pc in {Idle, Opened}
  {
    s.(headPtr := Some(s.HeadNow()), pc := Idle)
  }

  /** rotate seals only after a sync has published the whole, non-empty segment. */
  predicate CanSeal(s: Spool)
    requires s.Inv()
  {
    s.pc == Idle && s.durable == |s.log| && s.starts[s.Last()] < |s.log| && s.headPtr == Some(s.HeadNow())
  }

  function Seal(s: Spool): Spool
    requires s.Inv() && CanSeal(s)
  {
    s.(manifest := s.manifest + [s.Seg(s.Last())], pc := Sealing)
  }

  function SealSync(s: Spool): Spool
    requires s.Inv() && s.pc == Sealing
  {
    s.(sealed := |s.starts|, pc := Sealed)
  }

  function Create(s: Spool, data: bytes): Spool
    requires s.Inv() && s.pc == Sealed
  {
    s.(files := s.files + [data], starts := s.starts + [|s.log|], pc := Created)
  }

  function Open(s: Spool): Spool
    requires s.Inv() && s.pc == Created
  {
    s.(files := s.files[|s.files| - 1 := EncodeGlobalHeader(s.gh)], pc := Opened)
  }

  /** The janitor unlinks the oldest file; the newest always stays. */
  function Reap(s: Spool): Spool
    requires s.Inv() && s.pc == Idle && |s.files| >= 2
  {
    s.(first := s.first + 1, files := s.files[1..], low := Max(s.low, s.starts[s.first + 1]))
  }

  // ---- crash and recovery ----

  /** The newest file after a crash: its synced bytes, then anything. */
  predicate Torn(s: Spool, data: bytes)
    requires s.Shape()
  {
    s.SyncedLen() <= |s.File(s.Last())| && s.File(s.Last())[..s.SyncedLen()] <= data
  }

  /**
   A crash keeps every synced byte and nothing else for certain: unsynced log
   entries are gone, an unsynced manifest entry or new file may be, and the head
   pointer may be unreadable. (An unlink that did not reach the disk is undone by Return.)
   */
  predicate Crash(s: Spool, t: Spool)
    requires s.Inv()
  {
    && t.pc == Down && t.gh == s.gh && t.first == s.first && t.log == s.DLog() && t.durable == s.durable
      && t.low == s.low
    && (t.headPtr == s.headPtr || t.headPtr == None)
    && (if s.pc == Sealing then
          || (t.manifest == s.manifest && t.sealed == |s.starts|)
          || (t.manifest == s.manifest[..|s.manifest| - 1] && t.sealed == s.sealed)
        else t.manifest == s.manifest && t.sealed == s.sealed)
    && (|| (s.pc == Created && t.starts == s.starts[..s.Last()] && t.files == s.files[..|s.files| - 1]
            && t.sealed == |t.starts|)
        || (&& t.starts == s.starts && |t.files| == |s.files|
            && t.files[..|s.files| - 1] == s.files[..|s.files| - 1]
            && if s.pc == Sealing || s.sealed == |s.starts| then t.files == s.files
               else Torn(s, t.files[|s.files| - 1])))
  }

  /** Reaping does not sync the directory: after a crash the newest of the unlinked files can be back. */
  predicate CanReturn(s: Spool, back: seq<bytes>)
    requires s.Inv()
  {
    && s.pc == Down && |back| <= s.first
    && forall i :: 0 <= i < |back| ==> Holds(back[i], s.Range(s.first - |back| + i))
  }

  function Return(s: Spool, back: seq<bytes>): Spool
    requires s.Inv() && CanReturn(s, back)
  {
    s.(first := s.first - |back|, files := back + s.files)
  }

  /** The directory as recovery lists it. */
  function Listing(s: Spool): (l: seq<SegFile>)
    ensures |l| == |s.files|
  {
    seq(|s.files|, i requires 0 <= i < |s.files| => SegFile(s.first + i, s.files[i]))
  }

  /** What a writer that trusts the chain `segs` goes on with. */
  function AfterRecovery(s: Spool, segs: seq<Segment>): Spool
    requires s.Inv() && s.pc == Down && |segs| == |s.files|
  {
    var n := |segs| - 1;
    if s.sealed == |s.starts| then s.(pc := Sealed)
    else
      var log := s.log[..Min(segs[n].start, |s.log|)] + ScanFile(s.files[n], s.gh.snaplen);
      s.(files := s.files[n := Repair(s.files[n], s.gh)], log := log, durable := |log|, pc := Opened)
  }

  /** Recovery runs from disks whose oldest file is anchored. */
  predicate CanRecover(s: Spool) {
    s.pc == Down && (s.first == 0 || s.first < s.sealed)
  }

  predicate Recover(s: Spool, segs: seq<Segment>, t: Spool)
    requires s.Inv()
  {
    CanRecover(s) && IsChain(Listing(s), Latest(s.manifest), s.gh.snaplen, segs) && t == AfterRecovery(s, segs)
  }

  datatype Act =
    | AWrite(r: Record) | ASync | APublish | ASeal | ASealSync | ACreate(data: bytes) | AOpen
    | AReap | ACrash | AReturn(back: seq<bytes>) | ARecover(segs: seq<Segment>)

  predicate Step(s: Spool, a: Act, t: Spool)
    requires s.Inv()
  {
    match a
    case AWrite(r) => s.pc == Idle && Fits(r, s.gh.snaplen) && t == Write(s, r)
    case ASync => s.pc == Idle && t == SyncData(s)
    case APublish => s.pc in {Idle, Opened} && t == Publish(s)
    case ASeal => CanSeal(s) && t == Seal(s)
    case ASealSync => s.pc == Sealing && t == SealSync(s)
    case ACreate(data) => s.pc == Sealed && t == Create(s, data)
    case AOpen => s.pc == Created && t == Open(s)
    case AReap => s.pc == Idle && |s.files| >= 2 && t == Reap(s)
    case ACrash => Crash(s, t)
    case AReturn(back) => CanReturn(s, back) && t == Return(s, back)
    case ARecover(segs) => Recover(s, segs, t)
  }

  // ---- what every step keeps ----

  /**
   t is a later state of the same spool: the durable log has only grown, no sealed
   range has moved, and what has ever left the disk is not forgotten.
   */
  predicate Later(s: Spool, t: Spool)
    requires s.Inv() && t.Inv()
  {
    && s.gh == t.gh && s.DLog() <= t.DLog()
    && s.low <= t.low && s.sealed <= t.sealed
    && (forall k :: 0 <= k < s.sealed ==> s.Seg(k) == t.Seg(k))
    && (s.Last() < |t.starts| ==> s.durable <= t.End(s.Last()))
  }

  lemma InitInv(gh: GlobalHeader)
    ensures Init(gh).Inv()
  {
    hide EncodeGlobalHeader;
    HoldsNothing(gh);
  }

  lemma WriteKeeps(s: Spool, r: Record)
    requires s.Inv() && s.pc == Idle && Fits(r, s.gh.snaplen)
    ensures Write(s, r).Inv() && Later(s, Write(s, r))
  {
    hide HeaderOk, Holds, Carries, EncodeRecord, EncodeAll, Fits, Ascending;
    var t, n := Write(s, r), s.Last();
    assert t.Shape() by {
      assert forall i :: 0 <= i < |t.log| ==> Fits(t.log[i], s.gh.snaplen);
    }
    Untouched(s, t);
    assert t.FilesOk() by {
      assert t.Range(n) == s.Range(n) + [r];
      HoldsSnoc(s.File(n), s.Range(n), r);
      OthersUntouched(s, t);
    }
    assert t.log[..t.durable] == s.log[..s.durable];
    assert t.HeadOk() by {
      var h := s.headPtr.value;
      assert t.log[h.start..h.end] == s.log[h.start..h.end];
    }
  }

  lemma StartsOrder(s: Spool, i: nat, j: nat)
    requires s.Shape() && i < j < |s.starts|
    ensures s.starts[i] < s.starts[j]
  {
  }

  /** Growing the log past every older segment leaves the older segments' descriptions alone. */
  lemma Untouched(s: Spool, t: Spool)
    requires s.Shape() && t.Shape()
    requires s.starts <= t.starts && s.log[..s.starts[s.Last()]] <= t.log
    ensures forall k :: 0 <= k < s.Last() ==> t.Range(k) == s.Range(k) && t.Seg(k) == s.Seg(k)
  {
    hide EncodeAll, FitsAll;
    var m := s.starts[s.Last()];
    assert t.log[..m] == s.log[..m];
    forall k | 0 <= k < s.Last() ensures t.Range(k) == s.Range(k) && t.Seg(k) == s.Seg(k) {
      assert s.End(k) == t.End(k) <= m;
      assert s.starts[k] == t.starts[k];
      SameSlice(s.log, t.log, m, s.starts[k], s.End(k));
    }
  }

  lemma OthersUntouched(s: Spool, t: Spool)
    requires s.Inv() && t.Shape() && t.first == s.first && t.starts == s.starts && |t.files| == |s.files|
    requires forall i :: 0 <= i < |s.files| - 1 ==> t.files[i] == s.files[i]
    requires forall k :: 0 <= k < s.Last() ==> t.Range(k) == s.Range(k)
    ensures forall k :: t.first <= k < t.Last() ==> Holds(t.File(k), t.Range(k))
  {
    hide HeaderOk, Holds, Carries, EncodeAll, FitsAll, Ascending;
    forall k | t.first <= k < t.Last() ensures Holds(t.File(k), t.Range(k)) {
      assert t.File(k) == s.File(k);
    }
  }

  /** Steps that add no record and no segment move no range. */
  lemma SameSegs(s: Spool, t: Spool)
    requires s.Shape() && t.Shape() && t.log == s.log && t.starts == s.starts
    ensures forall k :: 0 <= k < |s.starts| ==> t.Range(k) == s.Range(k) && t.Seg(k) == s.Seg(k)
  {
    hide EncodeAll, FitsAll, Ascending;
  }

  lemma SyncKeeps(s: Spool)
    requires s.Inv() && s.pc == Idle
    ensures SyncData(s).Inv() && Later(s, SyncData(s))
  {
    hide Holds, EncodeAll, FitsAll, Ascending, Spool.Seg, Spool.Range;
    SameSegs(s, SyncData(s));
  }

  lemma PublishKeeps(s: Spool)
    requires s.Inv() && s.pc in {Idle, Opened}
    ensures Publish(s).Inv() && Later(s, Publish(s))
  {
    hide Holds, EncodeAll, FitsAll, Ascending, Spool.Seg, Spool.Range;
    SameSegs(s, Publish(s));
  }

  lemma SealKeeps(s: Spool)
    requires s.Inv() && CanSeal(s)
    ensures Seal(s).Inv() && Later(s, Seal(s))
  {
    hide Holds, EncodeAll, FitsAll, Ascending, Spool.Seg, Spool.Range;
    var t := Seal(s);
    SameSegs(s, t);
    SegNum(s, s.Last());
    assert t.manifest[..|t.manifest| - 1] == s.manifest;
  }

  lemma SealSyncKeeps(s: Spool)
    requires s.Inv() && s.pc == Sealing
    ensures SealSync(s).Inv() && Later(s, SealSync(s))
  {
    hide Holds, EncodeAll, FitsAll, Ascending, Spool.Seg, Spool.Range;
    SameSegs(s, SealSync(s));
  }

  lemma SegNum(s: Spool, k: nat)
    requires s.Shape() && k < |s.starts|
    ensures s.Seg(k).num == k
  {
    hide EncodeAll, FitsAll, Ascending;
  }

  lemma CreateRanges(s: Spool, data: bytes)
    requires s.Inv() && s.pc == Sealed
    ensures var t := Create(s, data);
            t.Shape() && forall k :: 0 <= k < |s.starts| ==> t.Range(k) == s.Range(k) && t.Seg(k) == s.Seg(k)
  {
    hide Holds, EncodeAll, FitsAll, Spool.HeadOk, ExactSeg;
    var t := Create(s, data);
    assert t.Shape();
    forall k | 0 <= k < |s.starts| ensures t.Range(k) == s.Range(k) && t.Seg(k) == s.Seg(k) {
      assert t.End(k) == s.End(k);
    }
  }

  lemma CreateKeeps(s: Spool, data: bytes)
    requires s.Inv() && s.pc == Sealed
    ensures Create(s, data).Inv() && Later(s, Create(s, data))
  {
    hide HeaderOk, Holds, Carries, EncodeAll, FitsAll, Ascending, ExactSeg;
    var t := Create(s, data);
    CreateRanges(s, data);
    assert t.FilesOk() by {
      assert forall k :: s.first <= k < |s.starts| ==> t.File(k) == s.File(k);
    }
    assert t.ManifestOk();
    assert t.HeadOk();
  }

  lemma OpenKeeps(s: Spool)
    requires s.Inv() && s.pc == Created
    ensures Open(s).Inv() && Later(s, Open(s))
  {
    hide Holds, EncodeAll, EncodeGlobalHeader, FitsAll, Ascending, Spool.Seg, Spool.Range;
    var t := Open(s);
    SameSegs(s, t);
    HoldsNothing(s.gh);
    assert t.Range(t.Last()) == [] by { EmptyLast(t); }
    OthersUntouched(s, t);
  }

  lemma EmptyLast(s: Spool)
    requires s.Shape() && s.starts[s.Last()] == |s.log|
    ensures s.Range(s.Last()) == []
  {
    hide FitsAll, Ascending;
  }

  lemma ReapKeeps(s: Spool)
    requires s.Inv() && s.pc == Idle && |s.files| >= 2
    ensures Reap(s).Inv() && Later(s, Reap(s))
  {
    hide Holds, EncodeAll, FitsAll, Ascending, Spool.Seg, Spool.Range;
    var t := Reap(s);
    StartsOrder(s, s.first, t.first);
    if t.first < s.Last() {
      StartsOrder(s, t.first, s.Last());
    }
    SameSegs(s, t);
    assert forall k :: t.first <= k < |t.starts| ==> t.File(k) == s.File(k);
  }

  lemma ReturnKeeps(s: Spool, back: seq<bytes>)
    requires s.Inv() && CanReturn(s, back)
    ensures Return(s, back).Inv() && Later(s, Return(s, back))
  {
    hide Holds, EncodeAll, FitsAll, Ascending, Spool.Seg, Spool.Range;
    var t := Return(s, back);
    if back != [] {
      StartsOrder(s, t.first, s.first);
    }
    assert t.Shape();
    SameSegs(s, t);
    assert t.FilesOk() by {
      forall k | t.first <= k < |t.starts|
        ensures k < s.first ==> Holds(t.File(k), t.Range(k))
        ensures k >= s.first ==> t.File(k) == s.File(k)
      {
        assert k < s.first ==> t.File(k) == back[k - t.first];
      }
    }
  }

  lemma TornKeeps(s: Spool, data: bytes)
    requires s.Inv() && s.sealed == s.Last() && s.pc in {Idle, Opened, Down} && Torn(s, data)
    ensures s.starts[s.Last()] < s.durable ==>
      HeaderOk(data) && Carries(data, s.log[s.starts[s.Last()]..s.durable])
  {
    hide HeaderOk, Holds, Carries, EncodeAll, FitsAll, Ascending;
    var n := s.Last();
    var kept := s.log[s.starts[n]..s.durable];
    if s.starts[n] < s.durable {
      FrontOfSlice(s.log, s.starts[n], s.End(n), |kept|);
      if s.pc != Down {
        HoldsCarries(s.File(n), s.Range(n), |kept|);
      }
      CarriesCut(s.File(n), kept, data);
    }
  }

  lemma CrashKeepsFiles(s: Spool, t: Spool)
    requires s.Inv() && Crash(s, t) && t.Shape()
    requires forall k :: 0 <= k < t.sealed ==> t.Range(k) == s.Range(k)
    ensures t.FilesOk()
  {
    hide HeaderOk, Holds, Carries, EncodeAll, Torn, FitsAll, Ascending;
    var n, m := s.Last(), t.Last();
    forall k | t.first <= k < m ensures Holds(t.File(k), t.Range(k)) {
      assert t.File(k) == t.files[..|s.files| - 1][k - s.first] == s.File(k);
    }
    if t.starts == s.starts && s.sealed == n && s.pc in {Idle, Opened, Down} {
      TornKeeps(s, t.files[|s.files| - 1]);
      assert t.Range(n) == s.log[s.starts[n]..s.durable];
    } else if t.starts == s.starts && s.pc == Created {
      assert t.starts[m] == |t.log|;
    } else {
      assert t.log == s.log;
      if s.pc == Created {
        StartsOrder(s, m, n);
      }
      assert t.File(m) == s.File(m) && t.Range(m) == s.Range(m);
      HoldsCarries(t.File(m), t.Range(m), |t.Range(m)|);
      assert t.Range(m)[..|t.Range(m)|] == t.Range(m);
    }
  }

  lemma CrashKeepsRanges(s: Spool, t: Spool)
    requires s.Inv() && Crash(s, t)
    ensures t.Shape()
    ensures forall k :: 0 <= k < t.sealed ==> t.Range(k) == s.Range(k) && t.Seg(k) == s.Seg(k)
  {
    hide HeaderOk, Holds, Carries, EncodeAll, Torn;
    assert t.Shape() by {
      assert forall i :: 0 <= i < |t.log| ==> t.log[i] == s.log[i];
    }
    forall k | 0 <= k < t.sealed ensures t.Range(k) == s.Range(k) && t.Seg(k) == s.Seg(k) {
      assert t.End(k) == s.End(k) <= s.durable && t.starts[k] == s.starts[k];
      SliceOfPrefix(s.log, s.durable, s.starts[k], s.End(k));
    }
  }

  lemma CrashKeepsManifest(s: Spool, t: Spool)
    requires s.Inv() && Crash(s, t) && t.Shape()
    requires forall k :: 0 <= k < t.sealed ==> t.Seg(k) == s.Seg(k)
    ensures t.ManifestOk()
  {
    hide HeaderOk, Holds, Carries, EncodeAll, Torn, FitsAll, Spool.SyncedLen, Spool.FilesOk, Spool.HeadOk,
      Ascending;
    if s.pc == Sealing {
      assert s.manifest == s.manifest[..|s.manifest| - 1] + [s.Seg(s.Last())];
    }
  }

  lemma CrashKeepsHead(s: Spool, t: Spool)
    requires s.Inv() && Crash(s, t) && t.Shape()
    ensures t.HeadOk()
  {
    hide HeaderOk, Holds, Carries, EncodeAll, Torn, FitsAll, Spool.SyncedLen, Spool.Seg, Ascending;
    if t.headPtr.Some? {
      var h := t.headPtr.value;
      assert s.HeadClaim(h);
      SliceOfPrefix(s.log, s.durable, h.start, h.end);
    }
  }

  lemma CrashKeeps(s: Spool, t: Spool)
    requires s.Inv() && Crash(s, t)
    ensures t.Inv() && Later(s, t)
  {
    hide HeaderOk, Holds, Carries, EncodeAll, Torn, FitsAll, Spool.FilesOk, Spool.ManifestOk, Spool.HeadOk,
      Ascending;
    CrashKeepsRanges(s, t);
    CrashKeepsFiles(s, t);
    CrashKeepsManifest(s, t);
    CrashKeepsHead(s, t);
  }

  lemma SealedNumbers(s: Spool)
    requires s.Inv() && s.pc == Down
    ensures forall k: nat :: k in Latest(s.manifest) <==> k < s.sealed
    ensures forall k :: 0 <= k < s.sealed ==> Latest(s.manifest)[k] == s.Seg(k)
  {
    hide HeaderOk, Holds, Carries, EncodeAll, FitsAll, Latest, Spool.FilesOk, Spool.HeadOk, Ascending;
    LatestEntries(s.manifest);
    forall k: nat ensures k in Latest(s.manifest) <==> k < s.sealed {
      if k < s.sealed {
        assert s.Seg(k) in s.manifest;
      }
    }
  }

  /** File i of the listing, in the history's own numbering. */
  lemma Listed(s: Spool, i: nat)
    requires s.Shape() && i < |s.files|
    ensures Listing(s)[i] == SegFile(s.first + i, s.File(s.first + i))
    ensures |s.starts[s.first..]| == |s.files|
    ensures s.starts[s.first..][i] == s.starts[s.first + i]
    ensures EndOf(s.log, s.starts[s.first..], i) == s.End(s.first + i)
    ensures s.starts[s.first + i] <= s.End(s.first + i) <= |s.log|
  {
    hide FitsAll;
  }

  /** A spool that is down looks, to recovery, like what a crash leaves of the truth. */
  lemma DownSurvives(s: Spool)
    requires s.Inv() && s.pc == Down
    ensures Survives(Listing(s), Latest(s.manifest), s.gh.snaplen, s.log, s.starts[s.first..])
  {
    hide HeaderOk, Holds, Carries, EncodeAll, FitsAll, Latest, Spool.ManifestOk, Spool.HeadOk, Listing, EndOf,
      Ascending;
    var files, m, starts := Listing(s), Latest(s.manifest), s.starts[s.first..];
    SealedNumbers(s);
    forall i | 0 <= i < |starts| ensures starts[i] <= EndOf(s.log, starts, i) <= |s.log| {
      Listed(s, i);
    }
    forall i | 0 <= i < |files| - 1 ensures Holds(files[i].data, s.log[starts[i]..EndOf(s.log, starts, i)]) {
      Listed(s, i);
    }
    forall i | 0 <= i < |files| && files[i].num in m
      ensures m[files[i].num] == ExactSeg(files[i].num, s.log, starts[i], EndOf(s.log, starts, i))
    {
      Listed(s, i);
    }
    var n := |files| - 1;
    Listed(s, n);
    assert s.Range(s.Last()) == s.log[starts[n]..] by { EndOfLast(s); }
  }

  lemma EndOfLast(s: Spool)
    requires s.Shape()
    ensures s.End(s.Last()) == |s.log|
  {
  }

  /** Recovery can only find the true ranges, with the newest as long as its bytes allow. */
  lemma RecoveredRanges(s: Spool, segs: seq<Segment>)
    requires s.Inv() && CanRecover(s) && IsChain(Listing(s), Latest(s.manifest), s.gh.snaplen, segs)
    ensures |segs| == |s.files|
    ensures forall i :: 0 <= i < |segs| ==> segs[i].start == s.starts[s.first + i]
    ensures forall i :: 0 <= i < |segs| && s.first + i < s.sealed ==> segs[i] == s.Seg(s.first + i)
    ensures s.sealed == s.Last() ==>
      segs[|segs| - 1].end == s.starts[s.Last()] + |ScanFile(s.File(s.Last()), s.gh.snaplen)|
  {
    hide HeaderOk, Holds, Carries, EncodeAll, Latest, Listing, EndOf, IsChain, Survives, ScanFile, Spool.FilesOk,
      Spool.ManifestOk, Spool.HeadOk, RangeOk, Ascending, TrueSegs, ExactSeg;
    var files, m, starts := Listing(s), Latest(s.manifest), s.starts[s.first..];
    DownSurvives(s);
    SealedNumbers(s);
    Listed(s, 0);
    RecoveryRebuildsChain(files, m, s.gh.snaplen, s.log, starts);
    var truth := TrueSegs(files, m, s.gh.snaplen, s.log, starts);
    SameChain(files, m, s.gh.snaplen, segs, truth);
    forall i | 0 <= i < |segs|
      ensures segs[i].start == s.starts[s.first + i]
      ensures s.first + i < s.sealed ==> segs[i] == s.Seg(s.first + i)
    {
      Listed(s, i);
      TrueSegAt(files, m, s.gh.snaplen, s.log, starts, i);
    }
    Listed(s, |files| - 1);
    TrueSegAt(files, m, s.gh.snaplen, s.log, starts, |files| - 1);
  }

  lemma RecoverSealedKeeps(s: Spool, segs: seq<Segment>)
    requires s.Inv() && s.pc == Down && s.sealed == |s.starts| && |segs| == |s.files|
    ensures AfterRecovery(s, segs).Inv() && Later(s, AfterRecovery(s, segs))
  {
    hide HeaderOk, Holds, Carries, EncodeAll, FitsAll, Ascending, Spool.Seg, Spool.Range;
    var t := AfterRecovery(s, segs);
    SameSegs(s, t);
  }

  lemma RecoverActiveKeeps(s: Spool, segs: seq<Segment>)
    requires s.Inv() && s.pc == Down && s.sealed == s.Last() && |segs| == |s.files|
    requires segs[|segs| - 1].start == s.starts[s.Last()]
    ensures AfterRecovery(s, segs).Inv() && Later(s, AfterRecovery(s, segs))
    ensures s.log <= AfterRecovery(s, segs).log
  {
    hide HeaderOk, Holds, Carries, EncodeAll, ScanFile, Repair, Fits, Ascending;
    var t, n := AfterRecovery(s, segs), s.Last();
    var recs := ScanFile(s.File(n), s.gh.snaplen);
    RepairHolds(s.File(n), s.gh);
    if s.starts[n] < |s.log| {
      FitsSlice(s.log, s.starts[n], |s.log|, s.gh.snaplen);
      ScanFileKeeps(s.File(n), s.Range(n), s.gh.snaplen);
    }
    assert s.log == s.log[..s.starts[n]] + s.Range(n);
    assert t.log == s.log[..s.starts[n]] + recs;
    assert t.Shape() by {
      assert forall i :: 0 <= i < |t.log| ==> Fits(t.log[i], s.gh.snaplen);
    }
    Untouched(s, t);
    assert t.FilesOk() by {
      assert t.Range(n) == recs;
      OthersUntouched(s, t);
    }
    assert t.HeadOk() by {
      if t.headPtr.Some? {
        var h := t.headPtr.value;
        assert t.log[h.start..h.end] == s.log[h.start..h.end];
      }
    }
    assert t.ManifestOk();
  }

  lemma RecoverKeeps(s: Spool, segs: seq<Segment>, t: Spool)
    requires s.Inv() && Recover(s, segs, t)
    ensures t.Inv() && Later(s, t)
  {
    hide HeaderOk, Holds, Carries, EncodeAll, Latest, Listing, IsChain, ScanFile, Repair, Ascending;
    RecoveredRanges(s, segs);
    if s.sealed == |s.starts| {
      RecoverSealedKeeps(s, segs);
    } else {
      RecoverActiveKeeps(s, segs);
    }
  }

  /** A segment number never changes where it starts. */
  lemma StartStays(s: Spool, t: Spool, k: nat)
    requires s.Inv() && t.Inv() && Later(s, t) && k < |s.starts| && k < |t.starts|
    ensures s.starts[k] == t.starts[k]
  {
    hide Spool.FilesOk, Spool.ManifestOk, Spool.HeadOk, FitsAll, Ascending, EncodeAll;
    if k > 0 {
      assert s.Seg(k - 1) == t.Seg(k - 1);
    }
  }

  /** A segment with a manifest entry is wholly durable. */
  lemma EntryIsDurable(s: Spool, e: Segment)
    requires s.Inv() && e in s.manifest
    ensures e.num < |s.starts| && e == s.Seg(e.num) && s.End(e.num) <= s.durable
  {
    hide Spool.HeadOk, FitsAll, EncodeAll, Ascending;
    s.EndBound(e.num);
  }

  lemma ActiveLength(s: Spool)
    requires s.Inv() && s.pc == Idle
    ensures |s.files[|s.files| - 1]| == GLOBAL_HEADER_LEN + |EncodeAll(s.log[s.starts[s.Last()]..|s.log|])|
  {
    hide Spool.ManifestOk, Spool.HeadOk, FitsAll, EncodeAll, Ascending, Holds;
    HoldsCarries(s.File(s.Last()), s.Range(s.Last()), 0);
  }

  // ---- whole runs ----

  lemma StepKeeps(s: Spool, a: Act, t: Spool)
    requires s.Inv() && Step(s, a, t)
    ensures t.Inv() && Later(s, t)
  {
    hide Spool.Inv, Later, Crash, Recover, CanSeal, CanReturn, Return;
    match a
    case AWrite(r) => WriteKeeps(s, r);
    case ASync => SyncKeeps(s);
    case APublish => PublishKeeps(s);
    case ASeal => SealKeeps(s);
    case ASealSync => SealSyncKeeps(s);
    case ACreate(data) => CreateKeeps(s, data);
    case AOpen => OpenKeeps(s);
    case AReap => ReapKeeps(s);
    case ACrash => CrashKeeps(s, t);
    case AReturn(back) => ReturnKeeps(s, back);
    case ARecover(segs) => RecoverKeeps(s, segs, t);
  }

  lemma LaterRefl(s: Spool)
    requires s.Inv()
    ensures Later(s, s)
  {
    hide Spool.FilesOk, Spool.ManifestOk, Spool.HeadOk, FitsAll, Ascending;
  }

  lemma LaterTrans(s: Spool, t: Spool, u: Spool)
    requires s.Inv() && t.Inv() && u.Inv() && Later(s, t) && Later(t, u)
    ensures Later(s, u)
  {
    hide Spool.FilesOk, Spool.ManifestOk, Spool.HeadOk, Ascending, FitsAll, EncodeAll;
    if s.Last() < |u.starts| {
      u.EndBound(s.Last());
      if s.Last() >= |t.starts| {
        assert s.Seg(t.Last()) == t.Seg(t.Last());
        assert s.Seg(t.Last()) == u.Seg(t.Last());
      } else if s.Last() < t.sealed {
        assert t.Seg(s.Last()) == u.Seg(s.Last());
      }
    }
  }

  /**
   Successive states of one spool instance, from the first NewWriter on. Steps are
   defined on states that satisfy Inv; RunKeepsInv shows that this never blocks one.
   */
  ghost predicate IsRun(run: seq<Spool>, acts: seq<Act>) {
    && |run| == |acts| + 1 && (exists gh :: run[0] == Init(gh))
    && forall i :: 0 <= i < |acts| ==> run[i].Inv() && Step(run[i], acts[i], run[i + 1])
  }

  lemma RunKeepsInv(run: seq<Spool>, acts: seq<Act>, i: nat)
    requires IsRun(run, acts) && i < |run|
    ensures run[i].Inv()
  {
    hide Spool.Inv, Step, Init;
    if i == 0 {
      var gh :| run[0] == Init(gh);
      InitInv(gh);
    } else {
      assert Step(run[i - 1], acts[i - 1], run[i - 1 + 1]);
      StepKeeps(run[i - 1], acts[i - 1], run[i]);
    }
  }

  /**
   No reissue. Whatever happens between two states of a run (writes, rotations,
   reaps, crashes, recoveries), every gpidx that was durable keeps its record and
   every sealed segment keeps its range.
   */
  lemma {:induction false} NoReissue(run: seq<Spool>, acts: seq<Act>, i: nat, j: nat)
    requires IsRun(run, acts) && i <= j < |run|
    ensures run[i].Inv() && run[j].Inv() && Later(run[i], run[j])
    decreases j
  {
    hide Spool.Inv, Later, Step, Init;
    RunKeepsInv(run, acts, i);
    if i == j {
      LaterRefl(run[i]);
    } else {
      NoReissue(run, acts, i, j - 1);
      assert Step(run[j - 1], acts[j - 1], run[j - 1 + 1]);
      StepKeeps(run[j - 1], acts[j - 1], run[j]);
      LaterTrans(run[i], run[j - 1], run[j]);
    }
  }

  // ---- when recovery is exact ----

  /** A crashed spool's ranges come back unshifted exactly when its oldest file is sealed or starts the history. */
  lemma RecoveryExactIff(s: Spool, segs: seq<Segment>)
    requires s.Inv() && s.pc == Down && IsChain(Listing(s), Latest(s.manifest), s.gh.snaplen, segs)
    ensures segs[0].start == s.starts[s.first] <==> CanRecover(s)
  {
    hide Spool.FilesOk, Spool.ManifestOk, Spool.HeadOk, FitsAll, Listing, Latest, IsChain, Survives, EndOf;
    DownSurvives(s);
    SealedNumbers(s);
    Listed(s, 0);
    UnanchoredShifts(Listing(s), Latest(s.manifest), s.gh.snaplen, s.log, s.starts[s.first..], segs);
  }

  /** Recovery refuses no disk a crash can leave behind, as long as the oldest file is anchored. */
  lemma RecoverySucceeds(s: Spool)
    requires s.Inv() && CanRecover(s)
    ensures exists segs :: IsChain(Listing(s), Latest(s.manifest), s.gh.snaplen, segs)
  {
    hide Spool.FilesOk, Spool.ManifestOk, Spool.HeadOk, FitsAll, Listing, Latest, IsChain, Survives, EndOf,
      Ascending;
    DownSurvives(s);
    SealedNumbers(s);
    Listed(s, 0);
    RecoveryRebuildsChain(Listing(s), Latest(s.manifest), s.gh.snaplen, s.log, s.starts[s.first..]);
  }

  /** A run whose reaps always leave a sealed file behind can always be recovered exactly. */
  lemma SealedFileAnchors(s: Spool, a: Act, t: Spool)
    requires s.Inv() && Step(s, a, t) && (s.first == 0 || s.first < s.sealed)
    requires a == AReap ==> |s.files| >= 3
    ensures t.first == 0 || t.first < t.sealed
  {
    hide Spool.FilesOk, Spool.HeadOk, FitsAll, Listing, Latest, IsChain, EndOf, Ascending, ScanFile, Repair,
      EncodeAll, ExactSeg;
  }

  /**
   If the crash left a prefix of the bytes that had been written, recovery assigns
   no gpidx that had not been assigned before it.
   */
  lemma CutTailRecoversPrefix(s: Spool, t: Spool, segs: seq<Segment>, u: Spool)
    requires s.Inv() && s.pc == Idle && Crash(s, t) && t.Inv() && Recover(t, segs, u)
    requires t.files[|t.files| - 1] <= s.files[|s.files| - 1]
    ensures s.DLog() <= u.log <= s.log
  {
    hide Holds, EncodeAll, FitsAll, Listing, Latest, IsChain, Ascending, Repair, ScanFile, Fits, Crash,
      Spool.FilesOk, Spool.ManifestOk, Spool.HeadOk;
    var n := s.Last();
    IdleCrash(s, t);
    RecoveredRanges(t, segs);
    RecoverActiveKeeps(t, segs);
    FitsSlice(s.log, s.starts[n], s.End(n), s.gh.snaplen);
    CutScan(s.File(n), s.Range(n), t.File(n), s.gh.snaplen);
    assert s.log == s.log[..s.starts[n]] + s.Range(n);
    assert t.log[..s.starts[n]] == s.log[..s.starts[n]];
    assert u.log == s.log[..s.starts[n]] + ScanFile(t.File(n), s.gh.snaplen);
  }

  lemma IdleCrash(s: Spool, t: Spool)
    requires s.Inv() && s.pc == Idle && Crash(s, t)
    ensures t.gh == s.gh && t.first == s.first && t.starts == s.starts && |t.files| == |s.files|
    ensures t.pc == Down && t.log == s.DLog() && t.sealed == t.Last()
    ensures Holds(s.File(s.Last()), s.Range(s.Last()))
  {
    hide Holds, EncodeAll, FitsAll, Ascending, Torn, Spool.HeadOk;
  }

  lemma CutScan(file: bytes, rs: seq<Record>, cut: bytes, snaplen: u32)
    requires Holds(file, rs) && FitsAll(rs, snaplen) && cut <= file
    ensures ScanFile(cut, snaplen) <= rs
  {
    hide EncodeAll, Scan, FitsAll, Holds;
    if HeaderOk(cut) {
      CutFile(file, rs, cut, snaplen);
    }
  }

  lemma IdleIsUnsealed(s: Spool)
    requires s.Inv() && s.pc == Idle
    ensures s.sealed == s.Last()
  {
  }

  lemma CutFile(file: bytes, rs: seq<Record>, cut: bytes, snaplen: u32)
    requires Holds(file, rs) && FitsAll(rs, snaplen) && cut <= file && |cut| >= GLOBAL_HEADER_LEN
    ensures Scan(cut[GLOBAL_HEADER_LEN..], snaplen) <= rs
  {
    hide EncodeAll, Scan, FitsAll;
    assert cut[GLOBAL_HEADER_LEN..] <= file[GLOBAL_HEADER_LEN..];
    ScanOfPrefix(cut[GLOBAL_HEADER_LEN..], rs, snaplen);
  }

  // ---- restarting with another snaplen ----

  /** What recovery with any snaplen makes of file i of a crashed spool, anchored or not. */
  function SegUnder(s: Spool, snaplen: u32, i: nat): Segment
    requires s.Inv() && s.pc == Down && i < |s.files|
  {
    var k := s.first + i;
    if k < s.sealed then s.Seg(k)
    else
      var start := if i == 0 then 0 else s.starts[k];
      var recs := ScanFile(s.File(k), snaplen);
      Segment(k, start, start + |recs|, GLOBAL_HEADER_LEN + |EncodeAll(recs)|, false)
  }

  /** Recovery refuses no disk a crash can leave behind, anchored or not, whatever snaplen it is given. */
  lemma ChainUnder(s: Spool, snaplen: u32) returns (segs: seq<Segment>)
    requires s.Inv() && s.pc == Down
    ensures IsChain(Listing(s), Latest(s.manifest), snaplen, segs)
    ensures |segs| == |s.files| && forall i :: 0 <= i < |segs| ==> segs[i] == SegUnder(s, snaplen, i)
  {
    hide Spool.FilesOk, Spool.ManifestOk, Spool.HeadOk, FitsAll, Ascending, EncodeAll, Latest, ScanFile, HeaderOk;
    segs := seq(|s.files|, i requires 0 <= i < |s.files| => SegUnder(s, snaplen, i));
    SealedNumbers(s);
    forall i | 0 <= i < |segs| ensures RangeOk(Listing(s), Latest(s.manifest), snaplen, segs, i) {
      assert i > 0 ==> segs[i - 1] == s.Seg(s.first + i - 1);
    }
  }

  /** The active file's range as a recovery with any snaplen sees it: the true start, and what its scan finds. */
  lemma ActiveUnder(s: Spool, snaplen: u32, segs: seq<Segment>)
    requires s.Inv() && CanRecover(s) && s.sealed == s.Last()
    requires IsChain(Listing(s), Latest(s.manifest), snaplen, segs)
    ensures |segs| == |s.files|
    ensures var n := |segs| - 1;
            && segs[n].start == s.starts[s.Last()]
            && segs[n].end == segs[n].start + |ScanFile(s.File(s.Last()), snaplen)|
  {
    hide HeaderOk, Holds, Carries, EncodeAll, Latest, ScanFile, Spool.FilesOk, Spool.ManifestOk, Spool.HeadOk,
      FitsAll, Ascending;
    var files, m, n := Listing(s), Latest(s.manifest), |segs| - 1;
    SealedNumbers(s);
    assert RangeOk(files, m, snaplen, segs, n);
    if n > 0 {
      assert RangeOk(files, m, snaplen, segs, n - 1);
      assert segs[n - 1] == s.Seg(s.Last() - 1);
    }
  }

  /**
   A spool restarted with another snaplen keeps its durable records exactly when those of
   the active file all fit it; otherwise recovery ends below the durable end, and the
   gpidx in between are handed out again.
   */
  lemma SnaplenIff(s: Spool, snaplen: u32, segs: seq<Segment>)
    requires s.Inv() && CanRecover(s) && s.sealed == s.Last()
    requires IsChain(Listing(s), Latest(s.manifest), snaplen, segs)
    ensures var n, active, found := |segs| - 1, s.Range(s.Last()), ScanFile(s.File(s.Last()), snaplen);
            && |segs| == |s.files|
            && (FitsAll(active, snaplen) <==> active <= found)
            && (FitsAll(active, snaplen) <==> s.durable <= segs[n].end)
  {
    hide HeaderOk, Holds, Carries, EncodeAll, Latest, ScanFile, Spool.ManifestOk, Spool.HeadOk, FitsAll, Ascending,
      Listing, IsChain;
    ActiveUnder(s, snaplen, segs);
    EndOfLast(s);
    var active, file := s.Range(s.Last()), s.File(s.Last());
    if active == [] {
      NothingToFit(snaplen);
    } else if FitsAll(active, snaplen) {
      ScanFileKeeps(file, active, snaplen);
    } else {
      FitsSlice(s.log, s.starts[s.Last()], s.End(s.Last()), s.gh.snaplen);
      ScanFileStops(file, active, snaplen, s.gh.snaplen);
    }
  }

  lemma NothingToFit(snaplen: u32)
    ensures FitsAll([], snaplen)
  {
  }

  lemma ScanFileStops(file: bytes, rs: seq<Record>, snaplen: u32, full: u32)
    requires HeaderOk(file) && Carries(file, rs) && FitsAll(rs, full) && !FitsAll(rs, snaplen)
    ensures |ScanFile(file, snaplen)| < |rs|
  {
    hide HeaderOk, Carries, Scan, EncodeAll, FitsAll, HeaderWalk;
    var i := FirstMisfit(rs, snaplen);
    StopsAtOversize(file, rs, i, snaplen, full);
  }

  lemma {:induction false} RunTo(run: seq<Spool>, acts: seq<Act>, a: Act, t: Spool)
    requires IsRun(run, acts) && run[|acts|].Inv() && Step(run[|acts|], a, t)
    ensures IsRun(run + [t], acts + [a]) && t.Inv()
  {
    hide Spool.Inv, Step, Init;
    StepKeeps(run[|acts|], a, t);
  }

  /** One record written, its segment sealed. */
  lemma SealFirst(gh: GlobalHeader, a: Record) returns (run: seq<Spool>, acts: seq<Act>)
    requires Fits(a, gh.snaplen)
    ensures IsRun(run, acts) && run[0] == Init(gh)
    ensures var s := run[|acts|];
            && s.Inv() && s.pc == Sealed && s.gh == gh && s.log == [a] && s.starts == [0] && s.first == 0
              && |s.files| == 1
  {
    hide Fits, EncodeRecord, EncodeAll, EncodeGlobalHeader, Holds, HeaderOk, Spool.FilesOk, Spool.ManifestOk;
    InitInv(gh);
    var s0 := Init(gh);
    run, acts := [s0], [];
    var s1 := Write(s0, a);    RunTo(run, acts, AWrite(a), s1); run, acts := run + [s1], acts + [AWrite(a)];
    var s2 := SyncData(s1);    RunTo(run, acts, ASync, s2);     run, acts := run + [s2], acts + [ASync];
    var s3 := Publish(s2);     RunTo(run, acts, APublish, s3);  run, acts := run + [s3], acts + [APublish];
    var s4 := Seal(s3);        RunTo(run, acts, ASeal, s4);     run, acts := run + [s4], acts + [ASeal];
    var s5 := SealSync(s4);    RunTo(run, acts, ASealSync, s5); run, acts := run + [s5], acts + [ASealSync];
  }

  /** Then a second record in a second segment, and the first segment reaped. */
  lemma ReapFirst(gh: GlobalHeader, a: Record, b: Record) returns (run: seq<Spool>, acts: seq<Act>)
    requires Fits(a, gh.snaplen) && Fits(b, gh.snaplen)
    ensures IsRun(run, acts)
    ensures var s := run[|acts|];
            && s.Inv() && s.pc == Idle && s.gh == gh && s.log == [a, b] && s.starts == [0, 1]
            && s.first == 1 && |s.files| == 1 && s.durable == 2
  {
    hide Fits, EncodeRecord, EncodeAll, EncodeGlobalHeader, Holds, HeaderOk, Spool.FilesOk, Spool.ManifestOk,
      Spool.HeadClaim;
    run, acts := SealFirst(gh, a);
    var s5 := run[|acts|];
    var s6 := Create(s5, []);  RunTo(run, acts, ACreate([]), s6); run, acts := run + [s6], acts + [ACreate([])];
    var s7 := Open(s6);        RunTo(run, acts, AOpen, s7);       run, acts := run + [s7], acts + [AOpen];
    var s8 := Publish(s7);     RunTo(run, acts, APublish, s8);    run, acts := run + [s8], acts + [APublish];
    var s9 := Write(s8, b);    RunTo(run, acts, AWrite(b), s9);   run, acts := run + [s9], acts + [AWrite(b)];
    var s10 := SyncData(s9);   RunTo(run, acts, ASync, s10);      run, acts := run + [s10], acts + [ASync];
    var s11 := Publish(s10);   RunTo(run, acts, APublish, s11);   run, acts := run + [s11], acts + [APublish];
    var s12 := Reap(s11);      RunTo(run, acts, AReap, s12);      run, acts := run + [s12], acts + [AReap];
  }

  /** A crash that happens to lose nothing. */
  lemma QuietCrash(s: Spool)
    requires s.Inv() && s.pc == Idle && s.durable == |s.log|
    ensures Crash(s, s.(pc := Down))
  {
    hide EncodeAll, Ascending, FitsAll, Spool.ManifestOk, Spool.HeadOk, HeaderOk;
    IdleIsUnsealed(s);
    var n := s.Last();
    assert s.log[..s.durable] == s.log;
    HoldsCarries(s.File(n), s.Range(n), |s.Range(n)|);
    assert s.log[s.starts[n]..s.durable] == s.Range(n);
  }

  /**
   The hypothesis of recovery is needed, and the code can violate it: when the
   janitor has removed every sealed file, the lone active file is unsealed and not
   the first of the history, and the next recovery hands its gpidx out again from 0.
   */
  lemma ReapingEverySealedFileReissues(gh: GlobalHeader, a: Record, b: Record)
    returns (run: seq<Spool>, acts: seq<Act>, segs: seq<Segment>)
    requires Fits(a, gh.snaplen) && Fits(b, gh.snaplen) && a != b
    ensures IsRun(run, acts)
    ensures var s := run[|acts|];
            && s.Inv() && s.pc == Down && !CanRecover(s)
            && IsChain(Listing(s), Latest(s.manifest), gh.snaplen, segs)
            && s.DLog() == [a, b] && AfterRecovery(s, segs).log == [b]
  {
    hide Fits, EncodeAll, HeaderOk, Holds, Latest, ScanFile, Repair, Spool.HeadClaim;
    run, acts := ReapFirst(gh, a, b);
    var up := run[|acts|];
    IdleIsUnsealed(up);
    QuietCrash(up);
    var s := up.(pc := Down);
    RunTo(run, acts, ACrash, s);
    run, acts := run + [s], acts + [ACrash];
    assert up.Range(1) == [b];
    ScanFileHolds(s.files[0], [b], gh.snaplen);
    SealedNumbers(s);
    segs := [Segment(1, 0, 1, GLOBAL_HEADER_LEN + |EncodeAll([b])|, false)];
    assert RangeOk(Listing(s), Latest(s.manifest), gh.snaplen, segs, 0);
    assert s.log[..0] + [b] == [b];
  }

  /** One record written, synced and published, then a crash. */
  lemma OneRecordDown(gh: GlobalHeader, a: Record) returns (run: seq<Spool>, acts: seq<Act>)
    requires Fits(a, gh.snaplen)
    ensures IsRun(run, acts)
    ensures var s := run[|acts|];
            && s.Inv() && s.pc == Down && s.gh == gh && s.log == [a] && s.starts == [0] && s.first == 0
              && |s.files| == 1
            && s.sealed == 0 && s.durable == 1
  {
    hide Fits, EncodeRecord, EncodeAll, EncodeGlobalHeader, Holds, HeaderOk, Spool.FilesOk, Spool.ManifestOk,
      Spool.HeadClaim;
    InitInv(gh);
    var s0 := Init(gh);
    run, acts := [s0], [];
    var s1 := Write(s0, a);    RunTo(run, acts, AWrite(a), s1); run, acts := run + [s1], acts + [AWrite(a)];
    var s2 := SyncData(s1);    RunTo(run, acts, ASync, s2);     run, acts := run + [s2], acts + [ASync];
    QuietCrash(s2);
    var s3 := s2.(pc := Down); RunTo(run, acts, ACrash, s3);    run, acts := run + [s3], acts + [ACrash];
  }

  /** A run after which a restart with a smaller snaplen gives gpidx 0, which was durable, out again. */
  lemma SmallerSnaplenReissues(gh: GlobalHeader, a: Record, small: u32)
    returns (run: seq<Spool>, acts: seq<Act>, segs: seq<Segment>)
    requires Fits(a, gh.snaplen) && small < |a.data|
    ensures IsRun(run, acts)
    ensures var s := run[|acts|];
            && s.Inv() && CanRecover(s) && s.DLog() == [a]
            && IsChain(Listing(s), Latest(s.manifest), small, segs) && segs[0].end == 0
  {
    hide Fits, EncodeAll, HeaderOk, Holds, Latest, ScanFile, Repair, Spool.HeadClaim, Spool.ManifestOk, Scan;
    run, acts := OneRecordDown(gh, a);
    var s := run[|acts|];
    SealedNumbers(s);
    assert s.Range(0) == [a];
    ShortScan(s.files[0], a, small, gh.snaplen);
    segs := [Segment(0, 0, 0, GLOBAL_HEADER_LEN + |EncodeAll([])|, false)];
    assert RangeOk(Listing(s), Latest(s.manifest), small, segs, 0);
  }

  lemma ShortScan(file: bytes, a: Record, small: u32, full: u32)
    requires HeaderOk(file) && Carries(file, [a]) && Fits(a, full) && small < |a.data|
    ensures ScanFile(file, small) == []
  {
    hide HeaderOk, Carries, Scan, EncodeAll, HeaderWalk;
    assert [a][..0] == [];
    StopsAtOversize(file, [a], 0, small, full);
  }

  // ---- the newest header ----

  /** The record's segment sealed and the next file created, then a crash that leaves a header no one wrote there. */
  lemma TornHeader(gh: GlobalHeader, a: Record) returns (run: seq<Spool>, acts: seq<Act>)
    requires Fits(a, gh.snaplen)
    ensures IsRun(run, acts) && run[0] == Init(gh)
    ensures var s := run[|acts|];
            && s.Inv() && s.pc == Down && s.gh == gh && s.log == [a] && s.starts == [0, 1] && s.first == 0
              && s.sealed == 1
            && |s.files| == 2 && s.files[1] == EncodeGlobalHeader(GlobalHeader(0, 1))
  {
    hide Fits, EncodeRecord, EncodeAll, EncodeGlobalHeader, Holds, HeaderOk, Spool.FilesOk, Spool.HeadOk;
    run, acts := SealFirst(gh, a);
    var s5 := run[|acts|];
    SealedFacts(s5);
    var s6 := Create(s5, []);
    RunTo(run, acts, ACreate([]), s6);
    run, acts := run + [s6], acts + [ACreate([])];
    var s7 := s6.(files := [s6.files[0], EncodeGlobalHeader(GlobalHeader(0, 1))], pc := Down);
    assert s6.log[..1] == s6.log && s6.files[..1] == s7.files[..1];
    RunTo(run, acts, ACrash, s7);
    run, acts := run + [s7], acts + [ACrash];
  }

  lemma SealedFacts(s: Spool)
    requires s.Inv() && s.pc == Sealed
    ensures s.sealed == |s.starts| && s.durable == |s.log|
  {
  }

  /** An empty file with a good header recovers as it is, whatever snaplen the header names. */
  lemma EmptyRecovers(h: GlobalHeader, gh: GlobalHeader)
    ensures ScanFile(EncodeGlobalHeader(h), gh.snaplen) == []
    ensures Repair(EncodeGlobalHeader(h), gh) == EncodeGlobalHeader(h)
  {
    hide EncodeGlobalHeader;
    var b := EncodeGlobalHeader(h);
    assert b[GLOBAL_HEADER_LEN..] == [] && b[..GLOBAL_HEADER_LEN] == b;
    ScanEncodeAll([], gh.snaplen);
    EncodeNothing();
  }

  /** Recovery keeps it, and the spool goes on: one durable record, and a newest file whose header says snaplen 0. */
  lemma BogusHeader(gh: GlobalHeader, a: Record) returns (run: seq<Spool>, acts: seq<Act>)
    requires Fits(a, gh.snaplen)
    ensures IsRun(run, acts) && run[0] == Init(gh)
    ensures var s := run[|acts|];
            && s.Inv() && s.pc == Idle && s.gh == gh && s.log == [a] && s.durable == 1 && s.starts == [0, 1]
              && s.first == 0
            && |s.files| == 2 && s.files[1] == EncodeGlobalHeader(GlobalHeader(0, 1)) && s.headPtr == Some(s.HeadNow())
  {
    hide Fits, EncodeAll, EncodeGlobalHeader, Spool.FilesOk, Spool.ManifestOk, Spool.HeadOk, ScanFile, Repair, IsChain,
      Listing, Latest;
    run, acts := TornHeader(gh, a);
    var s7 := run[|acts|];
    RecoverySucceeds(s7);
    var segs :| IsChain(Listing(s7), Latest(s7.manifest), s7.gh.snaplen, segs);
    RecoveredRanges(s7, segs);
    EmptyRecovers(GlobalHeader(0, 1), gh);
    var s8 := AfterRecovery(s7, segs);
    assert s7.log[..1] + [] == [a];
    RunTo(run, acts, ARecover(segs), s8);
    run, acts := run + [s8], acts + [ARecover(segs)];
    var s9 := Publish(s8);
    RunTo(run, acts, APublish, s9);
    run, acts := run + [s9], acts + [APublish];
  }

  /** Every file that has a header has the spool's own; a file just created does not count yet. */
  predicate HeadersOk(s: Spool) {
    forall i :: 0 <= i < |s.files| && (i == |s.files| - 1 ==> s.pc != Created) ==> HeaderOwn(s.files[i], s.gh)
  }

  predicate HeaderOwn(file: bytes, gh: GlobalHeader) {
    HeaderOk(file) ==> ParseGlobalHeader(file).value.snaplen == gh.snaplen
  }

  lemma HeaderOwnFront(file: bytes, more: bytes, gh: GlobalHeader)
    requires HeaderOwn(file, gh) && |file| >= GLOBAL_HEADER_LEN
    requires |more| >= GLOBAL_HEADER_LEN && more[..GLOBAL_HEADER_LEN] == file[..GLOBAL_HEADER_LEN]
    ensures HeaderOwn(more, gh)
  {
    hide Get32LE;
    SameSlice(file, more, GLOBAL_HEADER_LEN, 0, 4);
    SameSlice(file, more, GLOBAL_HEADER_LEN, 16, 20);
    SameSlice(file, more, GLOBAL_HEADER_LEN, 20, 24);
  }

  /**
   Only a crash can bring in a header that is not the spool's own: every other step keeps
   them, so where crashes leave no such header, serve reads with the spool's snaplen.
   */
  lemma HeadersStay(s: Spool, a: Act, t: Spool)
    requires s.Inv() && Step(s, a, t) && HeadersOk(s) && (a.ACrash? || a.AReturn? ==> HeadersOk(t))
    ensures HeadersOk(t)
  {
    hide HeaderOwn, Spool.FilesOk, Spool.ManifestOk, Spool.HeadOk, EncodeAll, EncodeRecord, EncodeGlobalHeader, FitsAll,
      Fits, Ascending, ScanFile, Repair, IsChain, Latest, Listing, Crash, CanReturn;
    match a
    case AWrite(r) => WrittenHeader(s, r);
    case AOpen => OwnHeader(s.gh);
    case ARecover(segs) =>
      RecoveredRanges(s, segs);
      RecoveredHeader(s, segs);
    case ACreate(_) => NotCreated(s);
    case ASync =>
    case APublish =>
    case ASeal =>
    case ASealSync =>
    case AReap =>
    case ACrash =>
    case AReturn(_) =>
  }

  lemma NotCreated(s: Spool)
    requires s.pc == Sealed && HeadersOk(s)
    ensures forall i :: 0 <= i < |s.files| ==> HeaderOwn(s.files[i], s.gh)
  {
  }

  lemma OwnHeader(gh: GlobalHeader)
    ensures HeaderOwn(EncodeGlobalHeader(gh), gh)
  {
    hide EncodeGlobalHeader, ParseGlobalHeader;
    HeaderRoundTrip(gh, []);
    assert EncodeGlobalHeader(gh) + [] == EncodeGlobalHeader(gh);
  }

  lemma WrittenHeader(s: Spool, r: Record)
    requires s.Inv() && s.pc == Idle && Fits(r, s.gh.snaplen) && HeadersOk(s)
    ensures HeaderOwn(Write(s, r).files[|s.files| - 1], s.gh)
  {
    hide HeaderOwn, Spool.ManifestOk, Spool.HeadOk, EncodeAll, EncodeRecord, FitsAll, Fits, Ascending;
    var file := s.files[|s.files| - 1];
    assert s.File(s.Last()) == file && |file| >= GLOBAL_HEADER_LEN;
    HeaderOwnFront(file, file + EncodeRecord(r), s.gh);
  }

  lemma RecoveredHeader(s: Spool, segs: seq<Segment>)
    requires s.Inv() && s.pc == Down && |segs| == |s.files| && HeadersOk(s)
    ensures HeadersOk(AfterRecovery(s, segs))
  {
    hide HeaderOwn, Spool.FilesOk, Spool.ManifestOk, Spool.HeadOk, EncodeAll, FitsAll, Ascending, ScanFile;
    RepairedHeader(s.files[|s.files| - 1], s.gh);
  }

  lemma RepairedHeader(file: bytes, gh: GlobalHeader)
    requires HeaderOwn(file, gh)
    ensures HeaderOwn(Repair(file, gh), gh)
  {
    hide EncodeAll, EncodeGlobalHeader, HeaderOwn, Scan;
    if HeaderOk(file) {
      ScanSound(file[GLOBAL_HEADER_LEN..], gh.snaplen);
      assert Repair(file, gh)[..GLOBAL_HEADER_LEN] == file[..GLOBAL_HEADER_LEN];
      HeaderOwnFront(file, Repair(file, gh), gh);
    } else {
      OwnHeader(gh);
    }
  }
}
