/** Crash recovery: rebuilding every segment's gpidx range from the bytes on disk and the manifest. */
module Recovery {
  import opened Bytes
  import opened Pcap

  /** One spool file's coverage: gpidx [start, end) in its first validLen bytes. */
  datatype Segment = Segment(num: nat, start: nat, end: nat, validLen: nat, sealed: bool)

  /** A segment file as a directory listing shows it. */
  datatype SegFile = SegFile(num: nat, data: bytes)

  /** loadManifest keeps the last entry of each sequence number. */
  function Latest(manifest: seq<Segment>): map<nat, Segment> {
    if manifest == [] then map[]
    else
      var e := manifest[|manifest| - 1];
      Latest(manifest[..|manifest| - 1])[e.num := e]
  }

  lemma {:induction false} LatestEntries(manifest: seq<Segment>)
    ensures forall k :: k in Latest(manifest) ==> Latest(manifest)[k] in manifest && Latest(manifest)[k].num == k
    ensures forall e :: e in manifest ==> e.num in Latest(manifest)
  {
    if manifest != [] {
      var n := |manifest| - 1;
      LatestEntries(manifest[..n]);
      assert manifest == manifest[..n] + [manifest[n]];
    }
  }

  lemma {:induction false} LatestOfConsecutive(segs: seq<Segment>, first: nat)
    requires forall i :: 0 <= i < |segs| ==> segs[i].num == first + i
    ensures forall k: nat :: k in Latest(segs) <==> first <= k < first + |segs|
    ensures forall k :: first <= k < first + |segs| ==> Latest(segs)[k] == segs[k - first]
  {
    if segs != [] {
      LatestOfConsecutive(segs[..|segs| - 1], first);
    }
  }

  /** The records a scan of a segment file accepts; a missing or corrupt header leaves none. */
  function ScanFile(data: bytes, snaplen: u32): seq<Record> {
    if HeaderOk(data) then Scan(data[GLOBAL_HEADER_LEN..], snaplen) else []
  }

  /** The file after scanSegment has repaired it: torn tail cut, bad header rewritten. */
  function Repair(data: bytes, gh: GlobalHeader): bytes {
    if !HeaderOk(data) then EncodeGlobalHeader(gh)
    else
      ScanSound(data[GLOBAL_HEADER_LEN..], gh.snaplen);
      data[..GLOBAL_HEADER_LEN + |EncodeAll(ScanFile(data, gh.snaplen))|]
  }

  /** Where the i-th file's range must begin, given the ranges before it. */
  function StartOf(files: seq<SegFile>, m: map<nat, Segment>, segs: seq<Segment>, i: nat): nat
    requires i < |files| && i <= |segs|
  {
    if i > 0 then segs[i - 1].end
    else if files[0].num in m then m[files[0].num].start
    else 0
  }

  /** The i-th range is what the manifest says or, failing that, what the bytes say. */
  predicate RangeOk(files: seq<SegFile>, m: map<nat, Segment>, snaplen: u32, segs: seq<Segment>, i: nat)
    requires i < |files| && i < |segs|
  {
    && segs[i].start == StartOf(files, m, segs, i)
    && (files[i].num in m ==> segs[i] == m[files[i].num])
    && (files[i].num !in m ==>
          var recs := ScanFile(files[i].data, snaplen);
          && (i < |files| - 1 ==> HeaderOk(files[i].data))
          && segs[i] == Segment(files[i].num, segs[i].start, segs[i].start + |recs|,
                                GLOBAL_HEADER_LEN + |EncodeAll(recs)|, i < |files| - 1))
  }

  /** segs is the contiguous chain of ranges that the files and the manifest agree on. */
  predicate IsChain(files: seq<SegFile>, m: map<nat, Segment>, snaplen: u32, segs: seq<Segment>) {
    |segs| == |files| && forall i :: 0 <= i < |files| ==> RangeOk(files, m, snaplen, segs, i)
  }

  datatype Recovered = Recovered(
    segs: seq<Segment>,      // every on-disk segment's range, in sequence order
    reseal: seq<Segment>,    // ranges whose manifest entry was lost
    active: Option<Segment>, // the segment to append to, or none to create one
    head: nat,               // next gpidx to assign
    nextSeq: nat,
    oldest: nat,             // start of the oldest on-disk segment
    lastData: Option<bytes>) // repaired contents of the active file

  datatype Result<+T> = Ok(value: T) | Err

  /** At most one chain fits a disk: recovery has no choice to make. */
  lemma {:induction false} ChainUnique(files: seq<SegFile>, m: map<nat, Segment>, snaplen: u32,
                                       a: seq<Segment>, b: seq<Segment>, n: nat)
    requires |a| >= n && |b| >= n && n <= |files|
    requires forall i :: 0 <= i < n ==> RangeOk(files, m, snaplen, a, i) && RangeOk(files, m, snaplen, b, i)
    ensures a[..n] == b[..n]
  {
    hide ScanFile, EncodeAll, HeaderOk;
    if n > 0 {
      ChainUnique(files, m, snaplen, a, b, n - 1);
      assert n > 1 ==> a[n - 2] == a[..n - 1][n - 2] && b[n - 2] == b[..n - 1][n - 2];
      assert RangeOk(files, m, snaplen, a, n - 1) && RangeOk(files, m, snaplen, b, n - 1);
      assert a[..n] == a[..n - 1] + [a[n - 1]] && b[..n] == b[..n - 1] + [b[n - 1]];
    }
  }

  lemma SameChain(files: seq<SegFile>, m: map<nat, Segment>, snaplen: u32, a: seq<Segment>, b: seq<Segment>)
    requires IsChain(files, m, snaplen, a) && IsChain(files, m, snaplen, b)
    ensures a == b
  {
    ChainUnique(files, m, snaplen, a, b, |files|);
    assert a[..|files|] == a && b[..|files|] == b;
  }

  method LoadManifest(manifest: seq<Segment>) returns (m: map<nat, Segment>)
    ensures m == Latest(manifest)
  {
    m := map[];
    for i := 0 to |manifest|
      invariant m == Latest(manifest[..i])
    {
      assert manifest[..i + 1][..i] == manifest[..i];
      m := m[manifest[i].num := manifest[i]];
    }
    assert manifest[..|manifest|] == manifest;
  }

  /** head and nextSeq are the least that lie past every segment the manifest stands by. */
  predicate JustPast(m: map<nat, Segment>, head: nat, nextSeq: nat) {
    && (forall k :: k in m ==> m[k].end <= head && k < nextSeq)
    && (head > 0 ==> exists k :: k in m && m[k].end == head)
    && (nextSeq > 0 ==> nextSeq - 1 in m)
  }

  /** No segment files: resume past the highest gpidx and sequence number in the loaded manifest. */
  method PastEverything(m: map<nat, Segment>) returns (head: nat, nextSeq: nat)
    ensures JustPast(m, head, nextSeq)
    ensures forall k :: k in m ==> m[k].end <= head && k < nextSeq
    ensures (head > 0 ==> exists k :: k in m && m[k].end == head) && (nextSeq > 0 ==> nextSeq - 1 in m)
  {
    head, nextSeq := 0, 0;
    var todo := m.Keys;
    ghost var top := 0;
    while todo != {}
      invariant todo <= m.Keys
      invariant forall k :: k in m && k !in todo ==> m[k].end <= head && k < nextSeq
      invariant head > 0 ==> top in m && m[top].end == head
      invariant nextSeq > 0 ==> nextSeq - 1 in m
      decreases |todo|
    {
      var k :| k in todo;
      todo := todo - {k};
      if m[k].end > head {
        head, top := m[k].end, k;
      }
      if k >= nextSeq {
        nextSeq := k + 1;
      }
    }
  }

  /** What recovery reports when it succeeds: the one chain that fits, and what follows from it. */
  ghost predicate Recovers(files: seq<SegFile>, manifest: seq<Segment>, gh: GlobalHeader, v: Recovered) {
    var m, n := Latest(manifest), |files| - 1;
    && IsChain(files, m, gh.snaplen, v.segs)
    && (files == [] ==> v.active == None && v.oldest == v.head && v.reseal == [] && JustPast(m, v.head, v.nextSeq))
    && (files != [] ==>
          && v.head == v.segs[n].end && v.oldest == v.segs[0].start && v.nextSeq == files[n].num + 1
          && v.active == (if files[n].num in m then None else Some(v.segs[n]))
          && v.lastData == (if v.active.Some? then Some(Repair(files[n].data, gh)) else None)
          && (forall e :: e in v.reseal <==> exists i :: 0 <= i < n && files[i].num !in m && v.segs[i] == e))
  }

  /**
   recoverSpool: one running counter walked over the files in sequence order.
   It succeeds exactly when some contiguous chain fits the disk, and returns it.
   */
  method RecoverSpool(files: seq<SegFile>, manifest: seq<Segment>, gh: GlobalHeader) returns (r: Result<Recovered>)
    ensures r.Ok? ==> Recovers(files, manifest, gh, r.value)
    ensures r.Err? ==> forall segs :: !IsChain(files, Latest(manifest), gh.snaplen, segs)
    ensures files == [] ==> r.Ok? && r.value.segs == [] && forall e :: e in Latest(manifest).Values ==>
                                                             e.end <= r.value.head == r.value.oldest
    ensures files == [] && r.value.head > 0 ==> exists e :: e in Latest(manifest).Values && e.end == r.value.head
    ensures files == [] ==> forall k :: k in Latest(manifest) ==> k < r.value.nextSeq
    ensures files == [] && r.value.nextSeq > 0 ==> r.value.nextSeq - 1 in Latest(manifest)
  {
    hide EncodeAll, HeaderOk, ScanFile, Repair;
    var m := LoadManifest(manifest);
    if files == [] {
      var head, nextSeq := PastEverything(m);
      return Ok(Recovered([], [], None, head, nextSeq, head, None));
    }
    var running, haveRunning, oldest := 0, false, 0;
    var segs: seq<Segment>, reseal: seq<Segment> := [], [];
    var active, lastData := None, None;
    var i := 0;
    while i < |files|
      invariant i <= |files| && |segs| == i
      invariant haveRunning <==> i > 0
      invariant i > 0 ==> running == segs[i - 1].end && oldest == segs[0].start
      invariant i == 0 ==> running == 0
      invariant forall k :: 0 <= k < i ==> RangeOk(files, m, gh.snaplen, segs, k)
      invariant active == (if i == |files| && files[i - 1].num !in m then Some(segs[i - 1]) else None)
      invariant lastData == (if active.Some? then Some(Repair(files[i - 1].data, gh)) else None)
      invariant forall e :: e in reseal <==>
                  exists k :: 0 <= k < i && k < |files| - 1 && files[k].num !in m && segs[k] == e
    {
      var isLast := i == |files| - 1;
      ghost var before := segs;
      if files[i].num in m {
        var seg := m[files[i].num];
        if !haveRunning {
          running, oldest, haveRunning := seg.start, seg.start, true;
        }
        if seg.start != running {
          NoChain(files, m, gh.snaplen, segs, i);
          return Err;
        }
        segs, running := segs + [seg], seg.end;
      } else {
        if !haveRunning {
          running, oldest, haveRunning := 0, 0, true;
        }
        if !isLast && !HeaderOk(files[i].data) {
          NoChain(files, m, gh.snaplen, segs, i);
          return Err;
        }
        var recs := ScanFile(files[i].data, gh.snaplen);
        var seg := Segment(files[i].num, running, running + |recs|, GLOBAL_HEADER_LEN + |EncodeAll(recs)|, !isLast);
        segs, running := segs + [seg], seg.end;
        if isLast {
          active, lastData := Some(seg), Some(Repair(files[i].data, gh));
        } else {
          reseal := reseal + [seg];
        }
      }
      RangesKeep(files, m, gh.snaplen, before, segs, i);
      i := i + 1;
    }
    r := Ok(Recovered(segs, reseal, active, running, files[|files| - 1].num + 1, oldest, lastData));
  }

  lemma RangesKeep(files: seq<SegFile>, m: map<nat, Segment>, snaplen: u32, a: seq<Segment>, b: seq<Segment>, n: nat)
    requires n <= |files| && |a| == n && a <= b
    requires forall k :: 0 <= k < n ==> RangeOk(files, m, snaplen, a, k)
    ensures forall k :: 0 <= k < n ==> RangeOk(files, m, snaplen, b, k)
  {
    hide EncodeAll, HeaderOk, ScanFile;
    forall k | 0 <= k < n ensures RangeOk(files, m, snaplen, b, k) {
      assert RangeOk(files, m, snaplen, a, k);
    }
  }

  /** A file that fits no continuation of the ranges before it rules out every chain. */
  lemma NoChain(files: seq<SegFile>, m: map<nat, Segment>, snaplen: u32, segs: seq<Segment>, i: nat)
    requires i < |files| && |segs| == i
    requires forall k :: 0 <= k < i ==> RangeOk(files, m, snaplen, segs, k)
    requires if files[i].num in m then m[files[i].num].start != StartOf(files, m, segs, i)
             else i < |files| - 1 && !HeaderOk(files[i].data)
    ensures forall other :: !IsChain(files, m, snaplen, other)
  {
    hide EncodeAll, HeaderOk, ScanFile;
    forall other ensures !IsChain(files, m, snaplen, other) {
      if IsChain(files, m, snaplen, other) {
        SameStart(files, m, snaplen, segs, other, i);
      }
    }
  }

  lemma SameStart(files: seq<SegFile>, m: map<nat, Segment>, snaplen: u32, segs: seq<Segment>, other: seq<Segment>,
      i: nat)
    requires i < |files| && |segs| == i && IsChain(files, m, snaplen, other)
    requires forall k :: 0 <= k < i ==> RangeOk(files, m, snaplen, segs, k)
    ensures RangeOk(files, m, snaplen, other, i)
    ensures StartOf(files, m, other, i) == StartOf(files, m, segs, i)
  {
    hide EncodeAll, HeaderOk, ScanFile;
    ChainUnique(files, m, snaplen, segs, other, i);
    assert i > 0 ==> other[i - 1] == other[..i][i - 1] == segs[..i][i - 1];
  }

  /** The counter before the i-th file: where the oldest starts, then the end of the file before it. */
  function Running(files: seq<SegFile>, m: map<nat, Segment>, snaplen: u32, i: nat): nat
    requires i <= |files|
  {
    if i == 0 then if files != [] && files[0].num in m then m[files[0].num].start else 0
    else if files[i - 1].num in m then m[files[i - 1].num].end
    else Running(files, m, snaplen, i - 1) + |ScanFile(files[i - 1].data, snaplen)|
  }

  /** A chain's ranges are what the counter runs over. */
  lemma {:induction false} ChainRuns(files: seq<SegFile>, m: map<nat, Segment>, snaplen: u32, segs: seq<Segment>,
      i: nat)
    requires IsChain(files, m, snaplen, segs) && i < |files|
    ensures segs[i].start == Running(files, m, snaplen, i) && segs[i].end == Running(files, m, snaplen, i + 1)
  {
    hide EncodeAll, HeaderOk, ScanFile;
    assert RangeOk(files, m, snaplen, segs, i);
    if i > 0 {
      ChainRuns(files, m, snaplen, segs, i - 1);
    }
  }

  /**
   Recovery succeeds exactly when every file the manifest lists starts where the counter
   stands, and every other file but the newest has a good header.
   */
  lemma ChainIff(files: seq<SegFile>, m: map<nat, Segment>, snaplen: u32)
    ensures (exists segs :: IsChain(files, m, snaplen, segs)) <==>
            forall i :: 0 <= i < |files| ==>
              if files[i].num in m then m[files[i].num].start == Running(files, m, snaplen, i)
              else i < |files| - 1 ==> HeaderOk(files[i].data)
  {
    hide EncodeAll, HeaderOk, ScanFile;
    if segs :| IsChain(files, m, snaplen, segs) {
      forall i | 0 <= i < |files|
        ensures if files[i].num in m then m[files[i].num].start == Running(files, m, snaplen, i)
                else i < |files| - 1 ==> HeaderOk(files[i].data)
      {
        ChainRuns(files, m, snaplen, segs, i);
        assert RangeOk(files, m, snaplen, segs, i);
      }
    }
    if forall i :: 0 <= i < |files| ==>
                     if files[i].num in m then m[files[i].num].start == Running(files, m, snaplen, i)
                     else i < |files| - 1 ==> HeaderOk(files[i].data)
    {
      var segs := seq(|files|, i requires 0 <= i < |files| =>
        if files[i].num in m then m[files[i].num]
        else Segment(files[i].num, Running(files, m, snaplen, i), Running(files, m, snaplen, i + 1),
                     GLOBAL_HEADER_LEN + |EncodeAll(ScanFile(files[i].data, snaplen))|, i < |files| - 1));
      assert forall i :: 0 <= i < |files| ==> RangeOk(files, m, snaplen, segs, i);
      assert IsChain(files, m, snaplen, segs);
    }
  }

  /** What a chain promises of any disk at all: no gap, no overlap, one range per file. */
  lemma ChainIsContiguous(files: seq<SegFile>, m: map<nat, Segment>, snaplen: u32, segs: seq<Segment>, i: nat)
    requires IsChain(files, m, snaplen, segs) && 0 < i < |files|
    ensures segs[i].start == segs[i - 1].end
  {
    hide EncodeAll, HeaderOk, ScanFile;
    assert RangeOk(files, m, snaplen, segs, i);
  }

  /** The directory once recovery has repaired the active file. */
  function Repaired(files: seq<SegFile>, m: map<nat, Segment>, gh: GlobalHeader): (r: seq<SegFile>)
    requires files != []
    ensures |r| == |files|
  {
    var n := |files| - 1;
    if files[n].num in m then files else files[n := SegFile(files[n].num, Repair(files[n].data, gh))]
  }

  /** Sequence order, as the directory is listed. */
  predicate InOrder(files: seq<SegFile>) {
    forall i, j :: 0 <= i < j < |files| ==> files[i].num < files[j].num
  }

  lemma {:induction false} LatestAppend(a: seq<Segment>, b: seq<Segment>)
    ensures Latest(a + b) == Latest(a) + Latest(b)
    decreases |b|
  {
    if b == [] {
      assert a + b == a;
    } else {
      var n := |b| - 1;
      LatestAppend(a, b[..n]);
      assert (a + b)[..|a| + n] == a + b[..n] && (a + b)[|a| + n] == b[n];
    }
  }

  lemma SameFile(files: seq<SegFile>, i: nat, j: nat)
    requires InOrder(files) && i < |files| && j < |files| && files[i].num == files[j].num
    ensures i == j
  {
  }

  /** The manifest once recovery has re-sealed: what it said it still says, and every earlier file is now in it. */
  lemma Resealed(files: seq<SegFile>, manifest: seq<Segment>, gh: GlobalHeader, v: Recovered, i: nat)
    requires Recovers(files, manifest, gh, v) && InOrder(files) && i < |files|
    ensures |v.segs| == |files|
    ensures var m, m', k := Latest(manifest), Latest(manifest + v.reseal), files[i].num;
            && (k in m ==> k in m' && m'[k] == m[k])
            && (k !in m && i < |files| - 1 ==> k in m' && m'[k] == v.segs[i])
            && (k !in m && i == |files| - 1 ==> k !in m')
  {
    hide EncodeAll, HeaderOk, ScanFile, Repair, Latest, JustPast;
    var m, added, k := Latest(manifest), Latest(v.reseal), files[i].num;
    LatestAppend(manifest, v.reseal);
    LatestEntries(v.reseal);
    assert RangeOk(files, m, gh.snaplen, v.segs, i);
    if k !in m && i < |files| - 1 {
      assert v.segs[i] in v.reseal && v.segs[i].num == k;
    }
    if k in added {
      var e := added[k];
      var j :| 0 <= j < |files| - 1 && files[j].num !in m && v.segs[j] == e;
      assert RangeOk(files, m, gh.snaplen, v.segs, j);
      assert e.num == files[j].num == k;
      SameFile(files, i, j);
    }
  }

  /** Recovering what recovery left finds the very same ranges: true of every disk and manifest. */
  lemma RecoverTwice(files: seq<SegFile>, manifest: seq<Segment>, gh: GlobalHeader, v: Recovered)
    requires Recovers(files, manifest, gh, v) && files != [] && InOrder(files)
    ensures IsChain(Repaired(files, Latest(manifest), gh), Latest(manifest + v.reseal), gh.snaplen, v.segs)
  {
    hide EncodeAll, HeaderOk, ScanFile, Repair, Holds, Latest, JustPast;
    var n, m, m' := |files| - 1, Latest(manifest), Latest(manifest + v.reseal);
    var files' := Repaired(files, m, gh);
    RepairScans(files[n].data, gh);
    forall i | 0 <= i < |files| ensures RangeOk(files', m', gh.snaplen, v.segs, i) {
      Resealed(files, manifest, gh, v, i);
      Resealed(files, manifest, gh, v, 0);
      assert RangeOk(files, m, gh.snaplen, v.segs, i);
      assert RangeOk(files, m, gh.snaplen, v.segs, 0);
    }
  }

  lemma RepairScans(data: bytes, gh: GlobalHeader)
    ensures ScanFile(Repair(data, gh), gh.snaplen) == ScanFile(data, gh.snaplen)
  {
    hide *;
    RepairHolds(data, gh);
    ScanFileHolds(Repair(data, gh), ScanFile(data, gh.snaplen), gh.snaplen);
  }

  // ---- recovery against the truth ----

  /** Where segment i ends, in a log where segment i starts at starts[i]. */
  function EndOf(log: seq<Record>, starts: seq<nat>, i: nat): nat
    requires i < |starts|
  {
    if i + 1 < |starts| then starts[i + 1] else |log|
  }

  /**
   The disk after a crash. Files before the last hold their records exactly;
   the last still starts with every durable record of its range, and anything may
   follow. Which manifest entries survived is left open: those that did are true.
   */
  predicate Survives(files: seq<SegFile>, m: map<nat, Segment>, snaplen: u32, log: seq<Record>, starts: seq<nat>) {
    && 0 < |files| == |starts|
    && FitsAll(log, snaplen)
    && (forall i :: 0 <= i < |starts| ==> starts[i] <= EndOf(log, starts, i) <= |log|)
    && (forall i :: 0 <= i < |files| - 1 ==> Holds(files[i].data, log[starts[i]..EndOf(log, starts, i)]))
    && var n := |files| - 1;
    && (starts[n] < |log| ==> HeaderOk(files[n].data) && Carries(files[n].data, log[starts[n]..]))
    && (forall i :: 0 <= i < |files| && files[i].num in m ==>
          m[files[i].num] == ExactSeg(files[i].num, log, starts[i], EndOf(log, starts, i)))
  }

  /** The sealed segment holding exactly log[start..end]. */
  function ExactSeg(num: nat, log: seq<Record>, start: nat, end: nat): Segment
    requires start <= end <= |log|
  {
    Segment(num, start, end, GLOBAL_HEADER_LEN + |EncodeAll(log[start..end])|, true)
  }

  /** The oldest file's start is known: from the manifest, or because it is gpidx 0. */
  predicate Anchored(files: seq<SegFile>, m: map<nat, Segment>, starts: seq<nat>)
    requires |files| == |starts| > 0
  {
    files[0].num in m || starts[0] == 0
  }

  /** The chain recovery ought to find: every true range, the last one as long as its bytes allow. */
  function TrueSegs(files: seq<SegFile>, m: map<nat, Segment>, snaplen: u32, log: seq<Record>,
      starts: seq<nat>): (segs: seq<Segment>)
    requires Survives(files, m, snaplen, log, starts)
    ensures |segs| == |files|
  {
    seq(|files|, i requires 0 <= i < |files| =>
      if i < |files| - 1 || files[i].num in m then ExactSeg(files[i].num, log, starts[i], EndOf(log, starts, i))
      else
        var recs := ScanFile(files[i].data, snaplen);
        Segment(files[i].num, starts[i], starts[i] + |recs|, GLOBAL_HEADER_LEN + |EncodeAll(recs)|, false))
  }

  lemma TrueSegAt(files: seq<SegFile>, m: map<nat, Segment>, snaplen: u32, log: seq<Record>, starts: seq<nat>, i: nat)
    requires Survives(files, m, snaplen, log, starts) && i < |files|
    ensures starts[i] <= EndOf(log, starts, i) <= |log|
    ensures var seg := TrueSegs(files, m, snaplen, log, starts)[i];
            && seg.start == starts[i]
            && (i < |files| - 1 || files[i].num in m ==>
                  seg == ExactSeg(files[i].num, log, starts[i], EndOf(log, starts, i)))
            && (i == |files| - 1 && files[i].num !in m ==> seg.end == starts[i] + |ScanFile(files[i].data, snaplen)|)
  {
    hide HeaderOk, Holds, Carries, EncodeAll, FitsAll, ScanFile;
  }

  lemma RepairHolds(data: bytes, gh: GlobalHeader)
    ensures Holds(Repair(data, gh), ScanFile(data, gh.snaplen))
    ensures FitsAll(ScanFile(data, gh.snaplen), gh.snaplen)
    ensures if HeaderOk(data) then Repair(data, gh) <= data else Repair(data, gh) == EncodeGlobalHeader(gh)
  {
    hide EncodeAll, EncodeGlobalHeader, Scan;
    if HeaderOk(data) {
      var body := data[GLOBAL_HEADER_LEN..];
      ScanSound(body, gh.snaplen);
      var n := |EncodeAll(Scan(body, gh.snaplen))|;
      assert data[..GLOBAL_HEADER_LEN + n][0..4] == data[0..4];
      assert data[..GLOBAL_HEADER_LEN + n][GLOBAL_HEADER_LEN..] == body[..n];
    } else {
      HoldsNothing(gh);
    }
  }

  lemma ScanFileHolds(data: bytes, recs: seq<Record>, snaplen: u32)
    requires Holds(data, recs) && FitsAll(recs, snaplen)
    ensures ScanFile(data, snaplen) == recs
  {
    ScanEncodeAll(recs, snaplen);
  }

  lemma ScanFileKeeps(data: bytes, recs: seq<Record>, snaplen: u32)
    requires HeaderOk(data) && Carries(data, recs) && FitsAll(recs, snaplen)
    ensures recs <= ScanFile(data, snaplen)
  {
    ScanIsMaximal(data[GLOBAL_HEADER_LEN..], recs, snaplen);
  }

  /**
   Recovery finds every true range again, whichever manifest entries were lost and
   whatever follows the durable bytes, if and only if the oldest file is anchored.
   */
  lemma RecoveryRebuildsChain(files: seq<SegFile>, m: map<nat, Segment>, snaplen: u32, log: seq<Record>,
      starts: seq<nat>)
    requires Survives(files, m, snaplen, log, starts)
    ensures IsChain(files, m, snaplen, TrueSegs(files, m, snaplen, log, starts)) <==> Anchored(files, m, starts)
  {
    hide EncodeAll, HeaderOk, ScanFile, Holds, Carries, FitsAll;
    var segs := TrueSegs(files, m, snaplen, log, starts);
    if Anchored(files, m, starts) {
      forall i | 0 <= i < |files| ensures RangeOk(files, m, snaplen, segs, i) {
        TrueRangeOk(files, m, snaplen, log, starts, i);
      }
    } else {
      assert segs[0].start == starts[0];
      assert !RangeOk(files, m, snaplen, segs, 0);
    }
  }

  lemma TrueRangeOk(files: seq<SegFile>, m: map<nat, Segment>, snaplen: u32, log: seq<Record>, starts: seq<nat>, i: nat)
    requires Survives(files, m, snaplen, log, starts) && i < |files| && Anchored(files, m, starts)
    ensures RangeOk(files, m, snaplen, TrueSegs(files, m, snaplen, log, starts), i)
  {
    hide EncodeAll, HeaderOk, ScanFile, Carries, FitsAll;
    if i < |files| - 1 {
      var recs := log[starts[i]..EndOf(log, starts, i)];
      FitsSlice(log, starts[i], EndOf(log, starts, i), snaplen);
      assert Holds(files[i].data, recs);
      ScanFileHolds(files[i].data, recs, snaplen);
    }
    if i > 0 {
      assert EndOf(log, starts, i - 1) == starts[i];
    }
  }

  lemma FitsSlice(log: seq<Record>, a: nat, b: nat, snaplen: u32)
    requires FitsAll(log, snaplen) && a <= b <= |log|
    ensures FitsAll(log[a..b], snaplen)
  {
  }

  /** The only chain an unanchored disk can have calls its oldest record gpidx 0. */
  lemma UnanchoredShifts(files: seq<SegFile>, m: map<nat, Segment>, snaplen: u32, log: seq<Record>,
      starts: seq<nat>, segs: seq<Segment>)
    requires Survives(files, m, snaplen, log, starts) && IsChain(files, m, snaplen, segs)
    ensures segs[0].start == starts[0] <==> Anchored(files, m, starts)
  {
    hide EncodeAll, HeaderOk, ScanFile, Holds, Carries, FitsAll;
    assert RangeOk(files, m, snaplen, segs, 0);
  }
}
