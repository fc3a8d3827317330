/** The collector's mirror as a state machine over its durable steps. */
module Mirror {
  import opened Bytes
  import opened Pcap

  /** resume.json: the durable commit point. An epoch of None is a mirror that has met no agent yet. */
  datatype Resume = Resume(committed: nat, session: nat, sessionStart: nat, lastSeq: nat, epoch: Option<nat>)

  /** A finished session: the records with gpidx [start, start + |recs|) of one epoch. */
  datatype Session = Session(epoch: Option<nat>, start: nat, recs: seq<Record>)

  datatype Pc =
    | Off                                   // no collector running
    | Ready                                 // between two durable operations
    | Wrote(recs: seq<Record>, seqNo: nat)  // Append: bytes written, not synced
    | Flushed(recs: seq<Record>, seqNo: nat) // Append: synced, commit point not yet advanced
    | Rotating(next: Resume)                // NewSession: next file ready, not yet the session of record
    | Rewriting(gh: GlobalHeader)           // SetHeader: the file is being truncated and rewritten

  datatype Mirror = Mirror(
    files: map<nat, bytes>,  // session files by session number
    saved: Resume,
    synced: nat,             // synced bytes of the current session file
    cur: seq<Record>,        // committed records of the current session
    past: seq<Session>,      // finished sessions, by number
    pc: Pc)
  {
    predicate Shape() {
      && |past| == saved.session && saved.committed == saved.sessionStart + |cur|
      && forall k :: 0 <= k < |past| ==> k in files && Body(files[k], past[k].recs)
    }

    /** The current file between operations: its header and exactly the committed records. */
    predicate Exact() {
      saved.session in files && Body(files[saved.session], cur) && synced == |files[saved.session]|
    }

    predicate Inv() {
      && Shape()
      && match pc
         case Off => cur != [] ==> saved.session in files && Carries(files[saved.session], cur)
         case Ready => Exact()
         case Wrote(recs, _) =>
           && recs != [] && saved.session in files && Body(files[saved.session], cur + recs)
           && synced == GLOBAL_HEADER_LEN + |EncodeAll(cur)|
         case Flushed(recs, _) =>
           && recs != [] && saved.session in files && Body(files[saved.session], cur + recs)
           && synced == |files[saved.session]|
         case Rotating(next) =>
           && Exact() && next.session == saved.session + 1 && next.committed == next.sessionStart
           && next.session in files && Body(files[next.session], [])
         case Rewriting(_) => cur == [] && synced == 0 && saved.session in files
    }

    /** Bytes of the current file a crash must leave in place: an empty session's file may be lost, name and all. */
    function Kept(): nat {
      if cur == [] then 0 else if pc != Off then synced else GLOBAL_HEADER_LEN + |EncodeAll(cur)|
    }
  }

  /** Some 24 header bytes, then exactly the records rs. */
  predicate Body(file: bytes, rs: seq<Record>) {
    |file| >= GLOBAL_HEADER_LEN && file[GLOBAL_HEADER_LEN..] == EncodeAll(rs)
  }

  function Init(): Mirror {
    Mirror(map[], Resume(0, 0, 0, 0, None), 0, [], [], Off)
  }

  // ---- the steps of Append ----

  function AppendWrite(m: Mirror, recs: seq<Record>, seqNo: nat): Mirror
    requires m.Inv() && m.pc == Ready && recs != []
  {
    m.(files := m.files[m.saved.session := m.files[m.saved.session] + EncodeAll(recs)], pc := Wrote(recs, seqNo))
  }

  function AppendSync(m: Mirror): Mirror
    requires m.Inv() && m.pc.Wrote?
  {
    m.(synced := |m.files[m.saved.session]|, pc := Flushed(m.pc.recs, m.pc.seqNo))
  }

  function AppendSave(m: Mirror): Mirror
    requires m.Inv() && m.pc.Flushed?
  {
    m.(saved := m.saved.(committed := m.saved.committed + |m.pc.recs|, lastSeq := m.pc.seqNo),
       cur := m.cur + m.pc.recs, pc := Ready)
  }

  // ---- the steps of NewSession and ResetForEpoch ----

  function Truncate(b: bytes, n: nat): (r: bytes)
    ensures |r| == n
  {
    if n <= |b| then b[..n] else b + seq(n - |b|, _ => 0)
  }

  datatype Opened = Opened(data: bytes, have: nat)

  /** openSession: a missing or torn header is rewritten; otherwise keep what the header walk finds. */
  function OpenSession(files: map<nat, bytes>, k: nat, gh: GlobalHeader, want: nat): Opened {
    if k !in files || |files[k]| < GLOBAL_HEADER_LEN then Opened(EncodeGlobalHeader(gh), want)
    else
      var w := HeaderWalk(files[k], gh.snaplen, want);
      Opened(Truncate(files[k], w.offset), w.have)
  }

  function RotateOpen(m: Mirror, start: nat, epoch: Option<nat>, gh: GlobalHeader): Mirror
    requires m.Inv() && m.pc == Ready
  {
    var k := m.saved.session + 1;
    m.(files := m.files[k := OpenSession(m.files, k, gh, 0).data],
       pc := Rotating(Resume(start, k, start, m.saved.lastSeq, epoch)))
  }

  function RotateSave(m: Mirror): Mirror
    requires m.Inv() && m.pc.Rotating?
  {
    m.(saved := m.pc.next, synced := GLOBAL_HEADER_LEN, cur := [],
       past := m.past + [Session(m.saved.epoch, m.saved.sessionStart, m.cur)], pc := Ready)
  }

  /** AdoptEpoch: one atomic write of the resume state. */
  function Adopt(m: Mirror, epoch: nat): Mirror
    requires m.Inv() && m.pc == Ready
  {
    m.(saved := m.saved.(epoch := Some(epoch)))
  }

  // ---- the steps of SetHeader on a session without records ----

  /** The file is truncated, and holds who knows what until the new header is synced. */
  function Clear(m: Mirror, gh: GlobalHeader, data: bytes): Mirror
    requires m.Inv() && m.pc == Ready && m.cur == []
  {
    m.(files := m.files[m.saved.session := data], synced := 0, pc := Rewriting(gh))
  }

  function Reheader(m: Mirror): Mirror
    requires m.Inv() && m.pc.Rewriting?
  {
    m.(files := m.files[m.saved.session := EncodeGlobalHeader(m.pc.gh)], synced := GLOBAL_HEADER_LEN, pc := Ready)
  }

  // ---- crash and reopen ----

  /** A crash keeps finished sessions, the synced bytes of the current one and the last saved resume state. */
  predicate Crash(m: Mirror, t: Mirror) {
    && t.pc == Off && t.saved == m.saved && t.cur == m.cur && t.past == m.past
    && (forall k :: 0 <= k < |m.past| && k in m.files ==> k in t.files && t.files[k] == m.files[k])
    && (m.Kept() > 0 && m.saved.session in m.files && m.Kept() <= |m.files[m.saved.session]| ==>
          m.saved.session in t.files && m.files[m.saved.session][..m.Kept()] <= t.files[m.saved.session])
  }

  /** OpenMirror: the commit point is lowered if the walk finds fewer records than it counts. */
  function Reopened(m: Mirror, gh: GlobalHeader): Mirror
    requires m.Inv() && m.pc == Off
  {
    var o := OpenSession(m.files, m.saved.session, gh, |m.cur|);
    m.(files := m.files[m.saved.session := o.data], synced := |o.data|, pc := Ready,
       saved := m.saved.(committed := m.saved.sessionStart + o.have),
       cur := if o.have <= |m.cur| then m.cur[..o.have] else m.cur)
  }

  datatype Act =
    | AWrite(recs: seq<Record>, seqNo: nat) | ASync | ASave
    | ARotate(start: nat, epoch: Option<nat>, gh: GlobalHeader) | ARotateSave
    | AAdopt(id: nat) | AClear(gh: GlobalHeader, data: bytes) | AReheader | ACrash | AOpen(gh: GlobalHeader)

  predicate Step(m: Mirror, a: Act, t: Mirror)
    requires m.Inv()
  {
    match a
    case AWrite(recs, seqNo) => m.pc == Ready && recs != [] && t == AppendWrite(m, recs, seqNo)
    case ASync => m.pc.Wrote? && t == AppendSync(m)
    case ASave => m.pc.Flushed? && t == AppendSave(m)
    case ARotate(start, epoch, gh) => m.pc == Ready && t == RotateOpen(m, start, epoch, gh)
    case ARotateSave => m.pc.Rotating? && t == RotateSave(m)
    case AAdopt(id) => m.pc == Ready && t == Adopt(m, id)
    case AClear(gh, data) => m.pc == Ready && m.cur == [] && t == Clear(m, gh, data)
    case AReheader => m.pc.Rewriting? && t == Reheader(m)
    case ACrash => Crash(m, t)
    case AOpen(gh) => m.pc == Off && FitsAll(m.cur, gh.snaplen) && t == Reopened(m, gh)
  }

  lemma InitInv()
    ensures Init().Inv()
  {
  }

  lemma BodyAppend(file: bytes, a: seq<Record>, b: seq<Record>)
    requires Body(file, a)
    ensures Body(file + EncodeAll(b), a + b) && |file| == GLOBAL_HEADER_LEN + |EncodeAll(a)|
  {
    hide EncodeAll;
    EncodeAllAppend(a, b);
    assert (file + EncodeAll(b))[GLOBAL_HEADER_LEN..] == file[GLOBAL_HEADER_LEN..] + EncodeAll(b);
  }

  lemma BodyEmpty(file: bytes)
    requires |file| == GLOBAL_HEADER_LEN
    ensures Body(file, [])
  {
  }

  /** Synced bytes of a file of records still carry the records after a crash. */
  lemma BodyKept(file: bytes, rs: seq<Record>, n: nat, after: bytes)
    requires Carries(file, rs) && GLOBAL_HEADER_LEN + |EncodeAll(rs)| <= n <= |file| && file[..n] <= after
    ensures Carries(after, rs)
  {
    hide EncodeAll;
    var e := |EncodeAll(rs)|;
    assert after[..n] == file[..n];
    assert after[GLOBAL_HEADER_LEN..][..e] == after[..n][GLOBAL_HEADER_LEN..][..e];
    assert file[GLOBAL_HEADER_LEN..][..e] == file[..n][GLOBAL_HEADER_LEN..][..e];
  }

  /** Every step, crashes included, keeps finished sessions and the committed records on disk. */
  lemma StepKeeps(m: Mirror, a: Act, t: Mirror)
    requires m.Inv() && Step(m, a, t)
    ensures t.Inv()
  {
    hide EncodeAll, EncodeGlobalHeader, EncodeRecord, Body, Carries, OpenSession, FitsAll;
    match a
    case AWrite(recs, _) => BodyAppend(m.files[m.saved.session], m.cur, recs);
    case ASync =>
    case ASave =>
    case ARotate(_, _, gh) => FreshSession(m.files, m.saved.session + 1, gh);
    case ARotateSave =>
      BodyAppend(m.files[m.pc.next.session], [], []);
      EmptyEncoding();
    case AAdopt(_) =>
    case AClear(_, _) =>
    case AReheader => BodyEmpty(EncodeGlobalHeader(m.pc.gh));
    case ACrash => CrashKeeps(m, t);
    case AOpen(gh) => ReopenKeeps(m, gh);
  }

  lemma CrashKeeps(m: Mirror, t: Mirror)
    requires m.Inv() && Crash(m, t)
    ensures t.Inv()
  {
    hide EncodeAll, Body, Carries;
    if m.cur != [] {
      CarriesNow(m);
      BodyKept(m.files[m.saved.session], m.cur, m.Kept(), t.files[m.saved.session]);
    }
  }

  /** The current file carries the committed records, and they are among the bytes a crash keeps. */
  lemma CarriesNow(m: Mirror)
    requires m.Inv() && m.cur != []
    ensures m.saved.session in m.files && Carries(m.files[m.saved.session], m.cur)
    ensures GLOBAL_HEADER_LEN + |EncodeAll(m.cur)| <= m.Kept() <= |m.files[m.saved.session]|
  {
    hide EncodeAll;
    if m.pc.Wrote? || m.pc.Flushed? {
      EncodeAllAppend(m.cur, m.pc.recs);
    }
  }

  lemma EmptyEncoding()
    ensures EncodeAll([]) == []
  {
  }

  /** Opening a session file leaves it a header: the one it has, or the collector's if it has none or part of one. */
  lemma OpensHeader(files: map<nat, bytes>, k: nat, gh: GlobalHeader, want: nat)
    ensures var had, d := k in files && |files[k]| >= GLOBAL_HEADER_LEN, OpenSession(files, k, gh, want).data;
            && |d| >= GLOBAL_HEADER_LEN
            && d[..GLOBAL_HEADER_LEN] == (if had then files[k][..GLOBAL_HEADER_LEN] else EncodeGlobalHeader(gh))
            && (!had ==> |d| == GLOBAL_HEADER_LEN && OpenSession(files, k, gh, want).have == want)
  {
    hide EncodeGlobalHeader, Scan, EncodeAll, CapLen, Residue, TornBody;
  }

  lemma FreshSession(files: map<nat, bytes>, k: nat, gh: GlobalHeader)
    ensures Body(OpenSession(files, k, gh, 0).data, []) && OpenSession(files, k, gh, 0).have == 0
    ensures |OpenSession(files, k, gh, 0).data| == GLOBAL_HEADER_LEN
  {
    hide EncodeGlobalHeader, HeaderWalk;
    if k in files && |files[k]| >= GLOBAL_HEADER_LEN {
      WalkFinds(files[k], [], gh.snaplen);
    }
    BodyEmpty(OpenSession(files, k, gh, 0).data);
  }

  /** Reopening finds every committed record and leaves nothing after the last. */
  lemma ReopenKeeps(m: Mirror, gh: GlobalHeader)
    requires m.Inv() && m.pc == Off && FitsAll(m.cur, gh.snaplen)
    ensures var t := Reopened(m, gh);
            t.Inv() && t.Exact() && t.saved == m.saved && t.cur == m.cur && t.past == m.past
  {
    hide EncodeAll, EncodeGlobalHeader, HeaderWalk, FitsAll;
    var k := m.saved.session;
    if m.cur == [] {
      FreshSession(m.files, k, gh);
    } else {
      var file, n := m.files[k], GLOBAL_HEADER_LEN + |EncodeAll(m.cur)|;
      WalkFinds(file, m.cur, gh.snaplen);
      assert file[..n][GLOBAL_HEADER_LEN..] == file[GLOBAL_HEADER_LEN..][..n - GLOBAL_HEADER_LEN];
      assert m.cur[..|m.cur|] == m.cur;
    }
  }

  /**
   Crash anywhere, reopen: the commit point, session and epoch are the last saved
   ones together, and the file is its header plus exactly the committed records.
   */
  lemma ReopenRestores(m: Mirror, t: Mirror, gh: GlobalHeader)
    requires m.Inv() && Crash(m, t) && FitsAll(m.cur, gh.snaplen)
    ensures t.Inv()
    ensures var r := Reopened(t, gh);
            r.Inv() && r.Exact() && r.saved == m.saved && r.cur == m.cur && r.past == m.past
  {
    hide EncodeAll, EncodeGlobalHeader, Body, Carries, OpenSession, FitsAll;
    CrashKeeps(m, t);
    ReopenKeeps(t, gh);
  }

  /**
   The branch that lowers the commit point is unreachable exactly when every
   committed record fits the snaplen the collector was started with.
   */
  lemma LoweringIff(m: Mirror, gh: GlobalHeader, full: u32)
    requires m.Inv() && m.pc == Off && FitsAll(m.cur, full)
    ensures Reopened(m, gh).saved == m.saved <==> FitsAll(m.cur, gh.snaplen)
  {
    hide EncodeAll, EncodeGlobalHeader, HeaderWalk, Fits;
    if FitsAll(m.cur, gh.snaplen) {
      ReopenKeeps(m, gh);
    } else {
      var i := FirstMisfit(m.cur, gh.snaplen);
      StopsAtOversize(m.files[m.saved.session], m.cur, i, gh.snaplen, full);
    }
  }

  /**
   Lowering keeps all it can: the commit point becomes the gpidx of the first record over
   the snaplen, the file is cut just before that record, and the session goes on from there.
   */
  lemma LowersTo(m: Mirror, gh: GlobalHeader, full: u32, i: nat)
    requires m.Inv() && m.pc == Off && FitsAll(m.cur, full)
    requires i < |m.cur| && FitsAll(m.cur[..i], gh.snaplen) && !Fits(m.cur[i], gh.snaplen)
    ensures var t, k := Reopened(m, gh), m.saved.session;
            && t.saved == m.saved.(committed := m.saved.sessionStart + i)
            && t.cur == m.cur[..i] && t.past == m.past && t.Inv() && t.Exact()
            && k in m.files && |m.files[k]| >= OffsetOf(m.cur, i)
            && t.files == m.files[k := m.files[k][..OffsetOf(m.cur, i)]]
  {
    hide EncodeAll, EncodeGlobalHeader, HeaderWalk, FitsAll, Fits;
    var file, off := m.files[m.saved.session], OffsetOf(m.cur, i);
    StopsAtOversize(file, m.cur, i, gh.snaplen, full);
    EncodedAt(file, m.cur, i);
    CarriesLess(file, m.cur, i);
    assert file[..off][GLOBAL_HEADER_LEN..] == file[GLOBAL_HEADER_LEN..off];
  }

  /** At its simplest: one committed record of n bytes is lost to a collector restarted with a snaplen below n. */
  lemma LoweringLoses(gh: GlobalHeader, r: Record)
    requires 0 < |r.data| < TWO32 && gh.snaplen < |r.data|
    ensures var file := EncodeGlobalHeader(gh) + EncodeAll([r]);
            var m := Mirror(map[0 := file], Resume(1, 0, 0, 0, Some(0)), 0, [r], [], Off);
            m.Inv() && Reopened(m, gh).saved.committed == 0 && Reopened(m, gh).cur == []
  {
    hide EncodeAll, EncodeGlobalHeader, HeaderWalk, OpenSession;
    var file := EncodeGlobalHeader(gh) + EncodeAll([r]);
    var m := Mirror(map[0 := file], Resume(1, 0, 0, 0, Some(0)), 0, [r], [], Off);
    assert file[GLOBAL_HEADER_LEN..] == EncodeAll([r]);
    assert [r][..0] == [];
    LoweredTo(file, r, gh);
  }

  lemma LoweredTo(file: bytes, r: Record, gh: GlobalHeader)
    requires Carries(file, [r]) && gh.snaplen < |r.data| < TWO32
    ensures OpenSession(map[0 := file], 0, gh, 1).have == 0
  {
    hide EncodeAll, EncodeGlobalHeader, HeaderWalk;
    assert [r][..0] == [];
    StopsAtOversize(file, [r], 0, gh.snaplen, 0xFFFF_FFFF);
  }

  /** A finished session's file is never written again. */
  lemma PastIsFinal(m: Mirror, a: Act, t: Mirror, k: nat)
    requires m.Inv() && Step(m, a, t) && k < |m.past|
    ensures t.Inv() && k < |t.past| && t.past[k] == m.past[k] && k in t.files && t.files[k] == m.files[k]
  {
    hide EncodeAll, EncodeGlobalHeader, Body, Carries;
    StepKeeps(m, a, t);
  }

  // ---- whole operations ----

  /** Append: write, sync, save. */
  function Appended(m: Mirror, recs: seq<Record>, seqNo: nat): (t: Mirror)
    requires m.Inv() && m.pc == Ready
    ensures t.Inv() && t.pc == Ready
    ensures t.saved.committed == m.saved.committed + |recs| && t.cur == m.cur + recs && t.past == m.past
    ensures recs == [] ==> t == m
    ensures recs != [] ==>
      var k := m.saved.session;
      var file := m.files[k] + EncodeAll(recs);
      t == m.(files := m.files[k := file], synced := |file|, cur := m.cur + recs,
              saved := m.saved.(committed := m.saved.committed + |recs|, lastSeq := seqNo))
  {
    hide EncodeAll, Body, Carries;
    if recs == [] then m
    else
      StepKeeps(m, AWrite(recs, seqNo), AppendWrite(m, recs, seqNo));
      var w := AppendWrite(m, recs, seqNo);
      StepKeeps(w, ASync, AppendSync(w));
      var f := AppendSync(w);
      StepKeeps(f, ASave, AppendSave(f));
      AppendSave(f)
  }

  /** NewSession, and ResetForEpoch when the epoch differs: open the next file, then save. */
  function Rotated(m: Mirror, start: nat, epoch: Option<nat>, gh: GlobalHeader): (t: Mirror)
    requires m.Inv() && m.pc == Ready
    ensures t.Inv() && t.pc == Ready && t.cur == []
    ensures t.saved == Resume(start, m.saved.session + 1, start, m.saved.lastSeq, epoch)
    ensures t.past == m.past + [Session(m.saved.epoch, m.saved.sessionStart, m.cur)]
    ensures var k := m.saved.session + 1; t.files == m.files[k := OpenSession(m.files, k, gh, 0).data]
    ensures t.synced == GLOBAL_HEADER_LEN
  {
    hide OpenSession, EncodeAll, Body, Carries;
    StepKeeps(m, ARotate(start, epoch, gh), RotateOpen(m, start, epoch, gh));
    var o := RotateOpen(m, start, epoch, gh);
    StepKeeps(o, ARotateSave, RotateSave(o));
    RotateSave(o)
  }

  /** SetHeader on a session without records: the file becomes just the new header. */
  function Reheadered(m: Mirror, gh: GlobalHeader): (t: Mirror)
    requires m.Inv() && m.pc == Ready && m.cur == []
    ensures t.Inv() && t == m.(files := m.files[m.saved.session := EncodeGlobalHeader(gh)], synced := GLOBAL_HEADER_LEN)
  {
    hide EncodeAll, EncodeGlobalHeader, Body, Carries;
    StepKeeps(m, AClear(gh, []), Clear(m, gh, []));
    var c := Clear(m, gh, []);
    StepKeeps(c, AReheader, Reheader(c));
    Reheader(c)
  }

  /** openSession's effect on the file, and how many of the wanted records it trusts. */
  method OpenFile(files: map<nat, bytes>, k: nat, gh: GlobalHeader, want: nat) returns (data: bytes, have: nat)
    ensures Opened(data, have) == OpenSession(files, k, gh, want)
  {
    hide HeaderWalk, EncodeGlobalHeader;
    if k !in files || |files[k]| < GLOBAL_HEADER_LEN {
      data, have := EncodeGlobalHeader(gh), want;
    } else {
      var offset;
      offset, have := RecordOffsetForCount(files[k], gh.snaplen, want);
      data := Truncate(files[k], offset);
    }
  }

  lemma OpensNoMore(files: map<nat, bytes>, k: nat, gh: GlobalHeader, want: nat)
    ensures OpenSession(files, k, gh, want).have <= want
  {
    hide Scan, CapLen;
  }

  lemma HasFile(m: Mirror)
    requires m.Inv() && m.pc == Ready
    ensures m.saved.session in m.files && m.synced == |m.files[m.saved.session]|
  {
  }

  class MirrorStore {
    // on disk
    var files: map<nat, bytes>
    var saved: Resume
    // in memory
    var gh: GlobalHeader
    var state: Resume
    var fileLen: nat
    // published for the fan-out and the supervisor
    var committed: nat
    var sessionStart: nat
    var sessionSeq: nat
    var committedLen: nat
    // the machine's history
    ghost var cur: seq<Record>
    ghost var past: seq<Session>
    ghost var synced: nat
    ghost var pc: Pc

    ghost function M(): Mirror
      reads this
    {
      Mirror(files, saved, synced, cur, past, pc)
    }

    ghost predicate Valid()
      reads this
    {
      && M().Inv() && pc == Ready && state == saved
      && fileLen == |files[saved.session]|
      && committed == saved.committed && sessionStart == saved.sessionStart && sessionSeq == saved.session
      && committedLen == fileLen
    }

    /**
     OpenMirror on the files a crash left; `m` is the crashed mirror. When the committed
     records fit the snaplen it is given, nothing that was committed is lost; otherwise
     it goes on with the lowered commit point.
     */
    constructor (files: map<nat, bytes>, saved: Resume, gh: GlobalHeader, ghost m: Mirror)
      requires m.Inv() && m.pc == Off && files == m.files && saved == m.saved
      ensures this.files == Reopened(m, gh).files && state == Reopened(m, gh).saved && this.gh == gh
      ensures committed == state.committed && sessionStart == state.sessionStart && sessionSeq == state.session
      ensures saved.session in this.files && committedLen == fileLen == |this.files[saved.session]|
      ensures FitsAll(m.cur, gh.snaplen) ==> Valid() && M() == Reopened(m, gh)
      ensures FitsAll(m.cur, gh.snaplen) ==> state == this.saved == saved && cur == m.cur && past == m.past
    {
      hide EncodeAll, OpenSession, FitsAll, Body, Carries;
      var k, want := saved.session, saved.committed - saved.sessionStart;
      var data, have := OpenFile(files, k, gh, want);
      OpensNoMore(files, k, gh, want);
      var state := if have < want then saved.(committed := saved.sessionStart + have) else saved;
      this.files, this.saved, this.gh := files[k := data], saved, gh;
      this.state, fileLen := state, |data|;
      committed, sessionStart, sessionSeq, committedLen := state.committed, state.sessionStart, k, |data|;
      cur, past, synced, pc := m.cur, m.past, |data|, Ready;
      new;
      if FitsAll(m.cur, gh.snaplen) {
        ReopenKeeps(m, gh);
        assert M() == Reopened(m, gh);
      }
    }

    method Publish()
      requires M().Inv() && pc == Ready && state == saved && fileLen == |files[saved.session]|
      modifies this`committed, this`sessionStart, this`sessionSeq, this`committedLen
      ensures Valid()
    {
      hide EncodeAll, Body, Carries;
      committed, sessionStart, sessionSeq, committedLen := state.committed, state.sessionStart, state.session, fileLen;
    }

    /** Append: bytes, then sync, then the resume state, then the published view. */
    method Append(recs: seq<Record>, lastSeq: nat)
      requires Valid()
      modifies this
      ensures Valid() && M() == Appended(old(M()), recs, lastSeq) && gh == old(gh)
    {
      hide EncodeAll, Appended, Mirror.Inv;
      if recs == [] {
        return;
      }
      HasFile(M());
      ghost var t := Appended(M(), recs, lastSeq);
      var buf := EncodeRecords(recs);
      var file := files[state.session] + buf;
      var next := state.(committed := state.committed + |recs|, lastSeq := lastSeq);
      files, synced, fileLen := files[state.session := file], |file|, |file|;
      state, saved, cur := next, next, cur + recs;
      assert M() == t;
      Publish();
    }

    method NewSession(start: nat)
      requires Valid()
      modifies this
      ensures Valid() && M() == Rotated(old(M()), start, old(saved.epoch), gh) && gh == old(gh)
    {
      Rotate(start, state.epoch);
    }

    method ResetForEpoch(epoch: nat, base: nat)
      requires Valid()
      modifies this
      ensures Valid() && M() == Rotated(old(M()), base, Some(epoch), gh) && gh == old(gh)
    {
      Rotate(base, Some(epoch));
    }

    /** The shared tail of NewSession and ResetForEpoch. */
    method Rotate(start: nat, epoch: Option<nat>)
      requires Valid()
      modifies this
      ensures Valid() && M() == Rotated(old(M()), start, epoch, gh) && gh == old(gh)
    {
      hide EncodeAll, OpenSession, Rotated, Body, Carries;
      ghost var t := Rotated(M(), start, epoch, gh);
      FreshSession(files, state.session + 1, gh);
      var k := state.session + 1;
      state := Resume(start, k, start, state.lastSeq, epoch);
      var data, _ := OpenFile(files, k, gh, 0);
      files, fileLen := files[k := data], |data|;
      past, cur, synced := past + [Session(saved.epoch, saved.sessionStart, cur)], [], GLOBAL_HEADER_LEN;
      saved := state;
      assert M() == t;
      Publish();
    }

    method AdoptEpoch(epoch: nat)
      requires Valid()
      modifies this`state, this`saved
      ensures Valid() && M() == Adopt(old(M()), epoch)
    {
      if state.epoch == Some(epoch) {
        return;
      }
      state := state.(epoch := Some(epoch));
      saved := state;
    }

    /** SetHeader: a session with records keeps its file; an empty one gets the new header. */
    method SetHeader(h: GlobalHeader)
      requires Valid()
      modifies this`gh, this`files, this`synced
      ensures Valid() && gh == h
      ensures M() == if old(gh) != h && old(cur) == [] then Reheadered(old(M()), h) else old(M())
    {
      hide EncodeAll, EncodeGlobalHeader, Body, Carries;
      if gh == h {
        return;
      }
      gh := h;
      if state.committed != state.sessionStart {
        return;
      }
      ghost var t := Reheadered(M(), h);
      HasFile(t);
      BodyAppend(files[state.session], [], []);
      EmptyEncoding();
      files, synced := files[state.session := EncodeGlobalHeader(h)], GLOBAL_HEADER_LEN;
    }
  }
}
