/** The tailing reader: a durable view rebuilt from three separate reads, and a cached seek position. */
module Reader {
  import opened Bytes
  import opened Pcap
  import opened Recovery
  import opened Spool

  // ---- the view ----

  /** What the view holds for one listed file: the head pointer wins over the manifest. */
  function Entry(num: nat, m: map<nat, Segment>, head: Option<Segment>): Option<Segment> {
    if head.Some? && head.value.num == num then head
    else if num in m then Some(m[num])
    else None
  }

  /** refresh's view, in file order (its sort by start gpidx yields this order: see Disjoint). */
  function ViewOf(nums: seq<nat>, m: map<nat, Segment>, head: Option<Segment>): seq<Segment> {
    if nums == [] then []
    else
      var n := |nums| - 1;
      ViewOf(nums[..n], m, head) + match Entry(nums[n], m, head) case None => [] case Some(e) => [e]
  }

  function OldestOf(view: seq<Segment>): nat { if view == [] then 0 else view[0].start }

  function HeadOf(view: seq<Segment>): nat { if view == [] then 0 else view[|view| - 1].end }

  /** A segment description that is true of the durable log. */
  predicate Claim(dlog: seq<Record>, e: Segment) {
    && e.start <= e.end <= |dlog|
    && e.validLen == GLOBAL_HEADER_LEN + |EncodeAll(dlog[e.start..e.end])|
  }

  /** Ascending, non-overlapping entries: sorting by start gpidx has one outcome. */
  predicate Disjoint(view: seq<Segment>) {
    forall i, j :: 0 <= i < j < |view| ==> view[i].end <= view[j].start
  }

  /** No gpidx is missing between the first entry and the last. */
  predicate HoleFree(view: seq<Segment>) {
    forall i :: 0 < i < |view| ==> view[i].start == view[i - 1].end
  }

  function Nums(s: Spool): (nums: seq<nat>)
    ensures |nums| == |s.files|
  {
    seq(|s.files|, i requires 0 <= i < |s.files| => s.first + i)
  }

  /** A file listed at s1 that was not the newest: its entry is its true, final range. */
  lemma OldEntry(s1: Spool, s2: Spool, s3: Spool, k: nat)
    requires s1.Inv() && s2.Inv() && s3.Inv() && Later(s1, s2) && Later(s2, s3)
    requires k < s1.Last()
    ensures k < |s3.starts|
    ensures var e := Entry(k, Latest(s2.manifest), s3.headPtr);
            && e.Some? && e.value.(sealed := true) == s3.Seg(k)
            && s3.Seg(k) == s1.Seg(k) && s3.End(k) <= s3.durable
  {
    hide Spool.FilesOk, FitsAll, Latest, EncodeAll;
    LatestEntries(s2.manifest);
    assert s2.Seg(k) in s2.manifest;
    s1.EndBound(k);
    s3.EndBound(k);
  }

  /** The newest file listed at s1: no entry yet, or a true one that starts where the previous ends. */
  lemma NewestEntry(s1: Spool, s2: Spool, s3: Spool)
    requires s1.Inv() && s2.Inv() && s3.Inv() && Later(s1, s2) && Later(s2, s3)
    ensures var e := Entry(s1.Last(), Latest(s2.manifest), s3.headPtr);
            e.Some? ==> && Claim(s3.DLog(), e.value)
                        && e.value.start == s1.starts[s1.Last()] && e.value.num == s1.Last()
  {
    hide Spool.FilesOk, Spool.ManifestOk, FitsAll, EncodeAll, Latest, Ascending;
    LatestEntries(s2.manifest);
    LaterTrans(s1, s2, s3);
    var k := s1.Last();
    var e := Entry(k, Latest(s2.manifest), s3.headPtr);
    if e.Some? {
      if s3.headPtr.Some? && s3.headPtr.value.num == k {
        StartStays(s1, s3, k);
        SliceOfPrefix(s3.log, s3.durable, e.value.start, e.value.end);
      } else {
        EntryIsDurable(s2, e.value);
        StartStays(s1, s2, k);
        s2.EndBound(k);
        SliceOfPrefix(s2.log, s2.durable, s2.starts[k], s2.End(k));
        SliceOfPrefix(s3.DLog(), s2.durable, s2.starts[k], s2.End(k));
        assert s3.DLog()[..s2.durable] == s2.DLog();
      }
    }
  }

  /** Entries of the files [first, first + n) a listing taken at s1 shows, none the newest. */
  lemma {:induction false} OldView(s1: Spool, s2: Spool, s3: Spool, n: nat)
    requires s1.Inv() && s2.Inv() && s3.Inv() && Later(s1, s2) && Later(s2, s3)
    requires n < |s1.files|
    ensures s3.sealed >= s1.Last()
    ensures var v := ViewOf(Nums(s1)[..n], Latest(s2.manifest), s3.headPtr);
            && |v| == n
            && forall i :: 0 <= i < n ==> v[i].(sealed := true) == s3.Seg(s1.first + i)
  {
    hide Spool.FilesOk, Spool.ManifestOk, Spool.HeadOk, FitsAll, EncodeAll, Latest, Ascending, Entry;
    if n > 0 {
      OldView(s1, s2, s3, n - 1);
      OldEntry(s1, s2, s3, s1.first + n - 1);
      assert Nums(s1)[..n][..n - 1] == Nums(s1)[..n - 1];
      assert Nums(s1)[..n][n - 1] == s1.first + n - 1;
    }
  }

  /**
   Whatever the writer, the janitor, a crash or a recovery does between the three
   reads of a refresh, the view is a hole-free chain of true ranges that begins with
   the oldest file listed and claims nothing that is not durable.
   */
  lemma RefreshSeesTrueChain(s1: Spool, s2: Spool, s3: Spool)
    requires s1.Inv() && s2.Inv() && s3.Inv() && Later(s1, s2) && Later(s2, s3)
    ensures var v := ViewOf(Nums(s1), Latest(s2.manifest), s3.headPtr);
            && HoleFree(v) && |s1.files| - 1 <= |v| <= |s1.files|
            && (forall i :: 0 <= i < |v| ==> Claim(s3.DLog(), v[i]) && v[i].num == s1.first + i)
            && (v != [] ==> OldestOf(v) == s1.starts[s1.first])
  {
    hide Spool.FilesOk, Spool.ManifestOk, Spool.HeadOk, FitsAll, EncodeAll, Latest, Ascending, Entry, Claim;
    var n := |s1.files| - 1;
    OldView(s1, s2, s3, n);
    NewestEntry(s1, s2, s3);
    LaterTrans(s1, s2, s3);
    assert Nums(s1)[n] == s1.Last();
    var v := ViewOf(Nums(s1), Latest(s2.manifest), s3.headPtr);
    forall i | 0 <= i < n
      ensures Claim(s3.DLog(), v[i]) && v[i].num == s1.first + i && v[i].start == s1.starts[s1.first + i]
        && v[i].end == s1.starts[s1.first + i + 1]
    {
      OldClaim(s1, s2, s3, s1.first + i, v[i]);
    }
  }

  lemma OldClaim(s1: Spool, s2: Spool, s3: Spool, k: nat, e: Segment)
    requires s1.Inv() && s2.Inv() && s3.Inv() && Later(s1, s2) && Later(s2, s3) && k < s1.Last()
    requires k < |s3.starts| && e.(sealed := true) == s3.Seg(k)
    ensures Claim(s3.DLog(), e) && e.num == k && e.start == s1.starts[k] && e.end == s1.starts[k + 1]
  {
    hide Spool.FilesOk, Spool.ManifestOk, Spool.HeadOk, FitsAll, EncodeAll, Latest, Ascending, Entry;
    OldEntry(s1, s2, s3, k);
    s3.EndBound(k);
    SliceOfPrefix(s3.log, s3.durable, s3.starts[k], s3.End(k));
  }

  // ---- the reader ----

  datatype Extent = Extent(start: nat, end: nat)

  /** What the reader's claims are about: the durable log, and the durable extent of each segment that has one. */
  datatype World = World(dlog: seq<Record>, segs: map<nat, Extent>, snaplen: u32)

  predicate Grows(w: World, w': World) {
    && w.dlog <= w'.dlog && w.snaplen == w'.snaplen
    && forall k :: k in w.segs ==>
         k in w'.segs && w'.segs[k].start == w.segs[k].start && w.segs[k].end <= w'.segs[k].end
  }

  predicate Within(w: World, e: Segment) {
    e.num in w.segs && w.segs[e.num].start == e.start && e.end <= w.segs[e.num].end
  }

  predicate TrueView(w: World, view: seq<Segment>) {
    && Disjoint(view) && FitsAll(w.dlog, w.snaplen)
    && forall i :: 0 <= i < |view| ==>
         && Claim(w.dlog, view[i])
         && (view[i].start < view[i].end ==> Within(w, view[i]))
  }

  predicate BacksSeg(dlog: seq<Record>, x: Extent, file: bytes) {
    x.start <= x.end <= |dlog| && Carries(file, dlog[x.start..x.end])
  }

  /** content[k] is what a handle on segment k reads, whether or not the file still has a name. */
  predicate Backed(w: World, content: map<nat, bytes>) {
    forall k :: k in w.segs ==> k in content && BacksSeg(w.dlog, w.segs[k], content[k])
  }

  lemma BackedClaim(w: World, content: map<nat, bytes>, e: Segment)
    requires Backed(w, content) && Within(w, e) && e.start < e.end
    ensures e.num in content && e.end <= |w.dlog| && Carries(content[e.num], w.dlog[e.start..e.end])
  {
    hide EncodeAll, Carries;
    var x := w.segs[e.num];
    assert BacksSeg(w.dlog, x, content[e.num]);
    CarriesLess(content[e.num], w.dlog[x.start..x.end], e.end - e.start);
    assert w.dlog[x.start..x.end][..e.end - e.start] == w.dlog[e.start..e.end];
  }

  predicate Owns(e: Segment, g: nat) { e.start <= g < e.end }

  /** OpenReader's start: clamped to retention, or the oldest packet when asked for more than there is. */
  function OpenAt(view: seq<Segment>, from: nat): (r: (nat, bool))
    ensures r.1 <==> from < OldestOf(view)
    ensures OldestOf(view) <= from <= HeadOf(view) ==> r.0 == from
    ensures from < OldestOf(view) || from > HeadOf(view) ==> r.0 == OldestOf(view)
  {
    var reaped := from < OldestOf(view);
    var at := if reaped then OldestOf(view) else from;
    (if at > HeadOf(view) then OldestOf(view) else at, reaped)
  }

  lemma OpenInLog(w: World, view: seq<Segment>, from: nat)
    requires TrueView(w, view)
    ensures OpenAt(view, from).0 <= |w.dlog|
  {
    hide FitsAll, EncodeAll;
    if view != [] {
      assert Claim(w.dlog, view[0]) && Claim(w.dlog, view[|view| - 1]);
    }
  }

  lemma TrueViewStays(w: World, w': World, view: seq<Segment>)
    requires TrueView(w, view) && Grows(w, w') && FitsAll(w'.dlog, w'.snaplen)
    ensures TrueView(w', view)
  {
    hide EncodeAll, FitsAll;
    forall i | 0 <= i < |view| ensures Claim(w'.dlog, view[i]) {
      assert w'.dlog[..|w.dlog|] == w.dlog;
      SliceOfPrefix(w'.dlog, |w.dlog|, view[i].start, view[i].end);
    }
  }

  datatype Outcome = Got(rec: Record, gpidx: nat) | NoData | Reaped | Gone | Bad

  /** One refresh's three reads, joined. */
  datatype Obs = Obs(nums: seq<nat>, manifest: seq<Segment>, head: Option<Segment>)

  function View(o: Obs): seq<Segment> { ViewOf(o.nums, Latest(o.manifest), o.head) }

  class TailReader {
    var view: seq<Segment>
    var oldest: nat
    var head: nat
    var gpidx: nat         // next gpidx to return
    var open: Option<nat>  // segment number of the open file
    var offset: nat        // next byte to read in it

    /** The cached offset is where a scan from the start of the file would put this gpidx. */
    ghost predicate Valid(w: World)
      reads this
    {
      && TrueView(w, view) && oldest == OldestOf(view) && head == HeadOf(view)
      && (open.Some? ==>
            && open.value in w.segs && w.segs[open.value].start <= gpidx <= |w.dlog|
            && offset == GLOBAL_HEADER_LEN + |EncodeAll(w.dlog[w.segs[open.value].start..gpidx])|)
    }

    /** Nothing the spool does later can spoil the view or the cached offset. */
    lemma StaysValid(w: World, w': World)
      requires Valid(w) && Grows(w, w') && FitsAll(w'.dlog, w'.snaplen)
      ensures Valid(w')
    {
      hide EncodeAll, FitsAll, TrueView;
      TrueViewStays(w, w', view);
      if open.Some? {
        assert w'.dlog[..|w.dlog|] == w.dlog;
        SliceOfPrefix(w'.dlog, |w.dlog|, w.segs[open.value].start, gpidx);
      }
    }

    constructor (o: Obs, from: nat, ghost w: World)
      requires TrueView(w, View(o))
      ensures Valid(w) && view == View(o) && open == None && gpidx == OpenAt(View(o), from).0
    {
      var v := View(o);
      view, oldest, head := v, OldestOf(v), HeadOf(v);
      gpidx := OpenAt(v, from).0;
      open, offset := None, 0;
    }

    method Refresh(o: Obs)
      modifies this`view, this`oldest, this`head
      ensures view == View(o) && oldest == OldestOf(view) && head == HeadOf(view)
    {
      var m := LoadManifest(o.manifest);
      view := [];
      for i := 0 to |o.nums|
        invariant view == ViewOf(o.nums[..i], m, o.head)
      {
        assert o.nums[..i + 1][..i] == o.nums[..i];
        var e := Entry(o.nums[i], m, o.head);
        if e.Some? {
          view := view + [e.value];
        }
      }
      assert o.nums[..|o.nums|] == o.nums;
      oldest, head := OldestOf(view), HeadOf(view);
    }

    method Owning(g: nat) returns (found: Option<Segment>)
      ensures found.Some? ==> found.value in view && Owns(found.value, g)
      ensures found.None? ==> forall i :: 0 <= i < |view| ==> !Owns(view[i], g)
    {
      for i := 0 to |view|
        invariant forall j :: 0 <= j < i ==> !Owns(view[j], g)
      {
        if Owns(view[i], g) {
          return Some(view[i]);
        }
      }
      found := None;
    }

    /** position: open the segment and skip to the record, checking nothing but headers. */
    method Position(seg: Segment, disk: set<nat>, content: map<nat, bytes>, ghost w: World) returns (ok: bool)
      requires Within(w, seg) && Owns(seg, gpidx)
      requires Claim(w.dlog, seg) && FitsAll(w.dlog, w.snaplen)
      requires seg.num in content && Carries(content[seg.num], w.dlog[seg.start..seg.end])
      modifies this`open, this`offset
      ensures ok <==> seg.num in disk
      ensures ok ==> open == Some(seg.num) && offset == GLOBAL_HEADER_LEN + |EncodeAll(w.dlog[seg.start..gpidx])|
      ensures !ok ==> open == old(open) && offset == old(offset)
    {
      if seg.num !in disk {
        return false;
      }
      ghost var rs := w.dlog[seg.start..seg.end];
      FitsSlice(w.dlog, seg.start, seg.end, w.snaplen);
      FitsMore(rs, w.snaplen, ENCODABLE);
      WalkToFinds(content[seg.num], rs, gpidx - seg.start);
      var _, off := SkipTo(content[seg.num], gpidx - seg.start);
      FrontOfSlice(w.dlog, seg.start, seg.end, gpidx - seg.start);
      open, offset, ok := Some(seg.num), off, true;
    }

    /** Under a true view the record at the cached offset is the log record at gpidx, wholly durable. */
    ghost predicate AtRecord(seg: Segment, content: map<nat, bytes>, w: World)
      reads this
    {
      && Claim(w.dlog, seg) && FitsAll(w.dlog, w.snaplen) && Owns(seg, gpidx) && seg.num in content
      && Carries(content[seg.num], w.dlog[seg.start..seg.end])
      && offset == GLOBAL_HEADER_LEN + |EncodeAll(w.dlog[seg.start..gpidx])|
    }

    /** With any snaplen of its own, the reader gets that record exactly if it fits. */
    lemma ReadsLog(seg: Segment, content: map<nat, bytes>, w: World, snaplen: u32)
      requires AtRecord(seg, content, w)
      ensures ReadRecordAt(content[seg.num], offset, seg.validLen, snaplen)
           == if Fits(w.dlog[gpidx], snaplen)
              then Read(w.dlog[gpidx], GLOBAL_HEADER_LEN + |EncodeAll(w.dlog[seg.start..gpidx + 1])|)
              else BadRecord
    {
      hide EncodeAll, Carries, ReadRecordAt, FitsAll;
      var rs, n := w.dlog[seg.start..seg.end], gpidx - seg.start;
      FitsSlice(w.dlog, seg.start, seg.end, w.snaplen);
      FitsMore(rs, w.snaplen, ENCODABLE);
      FrontOfSlice(w.dlog, seg.start, seg.end, n);
      FrontOfSlice(w.dlog, seg.start, seg.end, n + 1);
      assert rs[..|rs|] == rs && rs[n] == w.dlog[gpidx];
      ReadsFitting(content[seg.num], rs, n, seg.validLen, snaplen);
    }

    /**
     Next. `obs` are the refreshes this call may make, `disk` the segments it can
     still open, `content` what their files hold, `snaplen` what the reader believes. It
     returns the log record at its position and advances by one, or says truthfully why
     there is none to return; its loop runs at most twice.
     */
    method Next(obs: seq<Obs>, disk: set<nat>, content: map<nat, bytes>, snaplen: u32,
        ghost w: World) returns (r: Outcome)
      requires Valid(w) && |obs| == 2
      requires forall i :: 0 <= i < 2 ==> TrueView(w, View(obs[i]))
      requires Backed(w, content)
      modifies this
      ensures Valid(w) && (view == old(view) || exists i :: 0 <= i < 2 && view == View(obs[i]))
      ensures r.Got? ==> && r.gpidx == old(gpidx) < |w.dlog| && r.rec == w.dlog[r.gpidx] && gpidx == r.gpidx + 1
                         && Fits(r.rec, snaplen)
      ensures r.Bad? ==> gpidx < |w.dlog| && !Fits(w.dlog[gpidx], snaplen)
      ensures !r.Got? ==> gpidx == old(gpidx)
      ensures r.Reaped? ==> gpidx < OldestOf(view)
      ensures r.NoData? ==> exists i :: 0 <= i < 2 && view == View(obs[i])
      ensures r.NoData? ==> forall i :: 0 <= i < |view| ==> !Owns(view[i], gpidx)
      ensures r.Gone? ==>
        exists i :: 0 <= i < |view| && Owns(view[i], gpidx) && view[i].num !in disk && open != Some(view[i].num)
    {
      hide TrueView, Backed, View, Owns;
      ghost var settled := false;
      while true
        invariant Valid(w) && gpidx == old(gpidx)
        invariant view == old(view) || exists i :: 0 <= i < 2 && view == View(obs[i])
        invariant settled ==> exists i :: 0 <= i < |view| && Owns(view[i], gpidx)
        decreases !settled
      {
        if gpidx < oldest {
          return Reaped;
        }
        if gpidx >= head {
          PastHead(w, view, gpidx);
          Refresh(obs[0]);
          if gpidx < oldest {
            return Reaped;
          }
          if gpidx >= head {
            PastHead(w, view, gpidx);
            return NoData;
          }
        }
        var found := Owning(gpidx);
        if found.None? {
          Refresh(obs[1]);
          var again := Owning(gpidx);
          if again.None? {
            return NoData;
          }
          settled := true;
          continue;
        }
        r := ReadOwned(found.value, disk, content, snaplen, w);
        return;
      }
    }

    /** position when another file is open, then readAt. */
    method ReadOwned(seg: Segment, disk: set<nat>, content: map<nat, bytes>, snaplen: u32,
        ghost w: World) returns (r: Outcome)
      requires Valid(w) && seg in view && Owns(seg, gpidx)
      requires Backed(w, content)
      modifies this`open, this`offset, this`gpidx
      ensures Valid(w) && old(gpidx) < |w.dlog|
      ensures r == if old(open) != Some(seg.num) && seg.num !in disk then Gone
                   else if Fits(w.dlog[old(gpidx)], snaplen) then Got(w.dlog[old(gpidx)], old(gpidx)) else Bad
      ensures gpidx == if r.Got? then old(gpidx) + 1 else old(gpidx)
      ensures r.Gone? ==> open == old(open)
    {
      hide EncodeAll, ReadRecordAt, Carries, FitsAll;
      var i :| 0 <= i < |view| && view[i] == seg;
      BackedClaim(w, content, seg);
      if open != Some(seg.num) {
        var ok := Position(seg, disk, content, w);
        if !ok {
          return Gone;
        }
      }
      assert AtRecord(seg, content, w);
      ReadsLog(seg, content, w, snaplen);
      match ReadRecordAt(content[seg.num], offset, seg.validLen, snaplen)
      case Read(rec, next) =>
        offset := next;
        gpidx := gpidx + 1;
        r := Got(rec, gpidx - 1);
      case BadRecord =>
        r := Bad;
    }
  }

  lemma PastHead(w: World, view: seq<Segment>, g: nat)
    requires TrueView(w, view) && g >= HeadOf(view)
    ensures forall i :: 0 <= i < |view| ==> !Owns(view[i], g)
  {
    hide FitsAll, EncodeAll;
    forall i | 0 <= i < |view| ensures !Owns(view[i], g) {
      assert Claim(w.dlog, view[|view| - 1]);
    }
  }

  // ---- the reader beside the spool ----

  function WorldOf(s: Spool): World
    requires s.Inv()
  {
    World(s.DLog(),
          map k | 0 <= k < |s.starts| && s.starts[k] < s.durable :: Extent(s.starts[k], Min(s.End(k), s.durable)),
          s.gh.snaplen)
  }

  /** The spool only ever adds to what readers believe. */
  lemma LaterGrows(s: Spool, t: Spool)
    requires s.Inv() && t.Inv() && Later(s, t)
    ensures Grows(WorldOf(s), WorldOf(t))
  {
    hide Spool.FilesOk, Spool.ManifestOk, Spool.HeadOk, FitsAll, EncodeAll, Ascending;
    forall k | k in WorldOf(s).segs
      ensures k in WorldOf(t).segs && t.starts[k] == s.starts[k] && Min(s.End(k), s.durable) <= Min(t.End(k), t.durable)
    {
      if k < s.sealed {
        assert s.Seg(k) == t.Seg(k);
      } else {
        NotLost(s, t);
        StartStays(s, t, k);
      }
    }
  }

  /** A newest segment with durable records cannot be lost. */
  lemma NotLost(s: Spool, t: Spool)
    requires s.Inv() && t.Inv() && Later(s, t) && s.starts[s.Last()] < s.durable
    ensures s.Last() < |t.starts|
  {
    hide Spool.FilesOk, Spool.ManifestOk, Spool.HeadOk, FitsAll, EncodeAll, Ascending;
    assert t.Last() < s.sealed ==> s.Seg(t.Last()).end == t.Seg(t.Last()).end == |t.log|;
  }

  lemma {:induction false} HoleFreeIsDisjoint(dlog: seq<Record>, view: seq<Segment>, i: nat, j: nat)
    requires HoleFree(view) && i < j < |view|
    requires forall k :: 0 <= k < |view| ==> Claim(dlog, view[k])
    ensures view[i].end <= view[j].start
    decreases j
  {
    hide EncodeAll;
    assert view[j].start == view[j - 1].end;
    if i < j - 1 {
      HoleFreeIsDisjoint(dlog, view, i, j - 1);
      assert Claim(dlog, view[j - 1]);
    }
  }

  /** A refresh interleaved with anything gives the reader a view it can rely on. */
  lemma RefreshIsTrueView(s1: Spool, s2: Spool, s3: Spool)
    requires s1.Inv() && s2.Inv() && s3.Inv() && Later(s1, s2) && Later(s2, s3)
    ensures TrueView(WorldOf(s3), ViewOf(Nums(s1), Latest(s2.manifest), s3.headPtr))
  {
    hide Spool.FilesOk, Spool.ManifestOk, Spool.HeadOk, EncodeAll, Latest, Ascending, Entry, ViewOf, Claim, Fits,
      Within;
    var w, v := WorldOf(s3), ViewOf(Nums(s1), Latest(s2.manifest), s3.headPtr);
    RefreshSeesTrueChain(s1, s2, s3);
    forall i, j | 0 <= i < j < |v| ensures v[i].end <= v[j].start {
      HoleFreeIsDisjoint(w.dlog, v, i, j);
    }
    forall i | 0 <= i < |v| && v[i].start < v[i].end ensures Within(w, v[i]) {
      EntryWithin(s1, s2, s3, i);
    }
  }

  lemma EntryWithin(s1: Spool, s2: Spool, s3: Spool, i: nat)
    requires s1.Inv() && s2.Inv() && s3.Inv() && Later(s1, s2) && Later(s2, s3)
    requires var v := ViewOf(Nums(s1), Latest(s2.manifest), s3.headPtr); i < |v| && v[i].start < v[i].end
    ensures Within(WorldOf(s3), ViewOf(Nums(s1), Latest(s2.manifest), s3.headPtr)[i])
  {
    hide Spool.FilesOk, Spool.ManifestOk, Spool.HeadOk, EncodeAll, Latest, Ascending, Entry, FitsAll;
    var v, k, n := ViewOf(Nums(s1), Latest(s2.manifest), s3.headPtr), s1.first + i, |s1.files| - 1;
    RefreshSeesTrueChain(s1, s2, s3);
    OldView(s1, s2, s3, n);
    assert Nums(s1)[n] == s1.Last();
    if i < n {
      OldEntry(s1, s2, s3, k);
      assert v[i].(sealed := true) == s3.Seg(k);
    } else {
      NewestWithin(s1, s2, s3);
    }
  }

  lemma NewestWithin(s1: Spool, s2: Spool, s3: Spool)
    requires s1.Inv() && s2.Inv() && s3.Inv() && Later(s1, s2) && Later(s2, s3)
    requires var e := Entry(s1.Last(), Latest(s2.manifest), s3.headPtr); e.Some? && e.value.start < e.value.end
    ensures Within(WorldOf(s3), Entry(s1.Last(), Latest(s2.manifest), s3.headPtr).value)
  {
    hide Spool.FilesOk, Spool.ManifestOk, EncodeAll, Latest, Ascending, FitsAll, ExactSeg, Grows;
    var k := s1.Last();
    NewestEntry(s1, s2, s3);
    LatestEntries(s2.manifest);
    var e := Entry(k, Latest(s2.manifest), s3.headPtr).value;
    if s3.headPtr.Some? && s3.headPtr.value.num == k {
    } else {
      EntryWithinThen(s2, s3, e);
    }
  }

  lemma EntryWithinThen(s: Spool, t: Spool, e: Segment)
    requires s.Inv() && t.Inv() && Later(s, t) && e in s.manifest && e.start < e.end
    ensures Within(WorldOf(t), e)
  {
    hide Spool.FilesOk, Spool.ManifestOk, Spool.HeadOk, EncodeAll, Ascending, FitsAll;
    EntryIsDurable(s, e);
    assert e.num in WorldOf(s).segs;
    LaterGrows(s, t);
  }

  /** Every file on disk holds what any true view claims of it. */
  lemma FileBacks(s: Spool, e: Segment)
    requires s.Inv() && Within(WorldOf(s), e) && e.start < e.end && s.first <= e.num < |s.starts|
    ensures e.end <= s.durable && Carries(s.File(e.num), s.DLog()[e.start..e.end])
  {
    hide EncodeAll, Spool.ManifestOk, Spool.HeadOk, FitsAll, Ascending, Holds, Carries, HeaderOk;
    assert WorldOf(s).segs[e.num] == Extent(s.starts[e.num], Min(s.End(e.num), s.durable));
    s.EndBound(e.num);
    var rs, n := s.Range(e.num), e.end - e.start;
    SliceOfPrefix(s.log, s.durable, e.start, e.end);
    FrontOfSlice(s.log, e.start, s.End(e.num), n);
    if e.num == s.Last() && s.pc == Down {
      CarriesLess(s.File(e.num), rs, n);
    } else {
      HoldsCarries(s.File(e.num), rs, n);
    }
  }
}
