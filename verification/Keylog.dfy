/**
 Merging growing keylog files into one relay: a chunked, resumable line splitter that
 gives up on a line once more than 256 bytes of it are pending, against the plain
 meaning "split on newlines, keep the valid, each key once".
 */
module Keylog {
  import opened Bytes

  const NEWLINE: byte := 10
  const SPACE: byte := 32
  const MAX_LINE_LEN := 256
  const BUFFER_LEN := 0x1_0000

  /** keylog.Valid and bytes.TrimSpace; every result holds for any such pair. */
  datatype Rules = Rules(valid: bytes -> bool, trim: bytes -> bytes)

  // ---- the plain meaning ----

  datatype Text = Text(lines: seq<bytes>, tail: bytes)

  /** b holds no newline. */
  predicate Plain(b: bytes) {
    forall k :: 0 <= k < |b| ==> b[k] != NEWLINE
  }

  /** The first newline of b, or its length. */
  function IndexOf(b: bytes): (i: nat)
    ensures i <= |b| && Plain(b[..i]) && (i < |b| ==> b[i] == NEWLINE)
  {
    if b != [] && b[0] != NEWLINE then PlainCons(b, IndexOf(b[1..])); 1 + IndexOf(b[1..]) else 0
  }

  lemma PlainCons(b: bytes, i: nat)
    requires b != [] && b[0] != NEWLINE && i < |b| && Plain(b[1..][..i])
    ensures Plain(b[..1 + i])
  {
    var p := b[..1 + i];
    forall k | 0 <= k < |p| ensures p[k] != NEWLINE {
      assert k > 0 ==> p[k] == b[1..][..i][k - 1];
    }
  }

  /** t, then u, where u took up t's tail. */
  function Join(t: Text, u: Text): Text { Text(t.lines + u.lines, u.tail) }

  lemma JoinJoin(t: Text, u: Text, v: Text)
    ensures Join(Join(t, u), v) == Join(t, Join(u, v)) && Join(Text([], t.tail), u) == u
  {
    assert t.lines + u.lines + v.lines == t.lines + (u.lines + v.lines);
  }

  /** The newline-terminated lines of b, and what follows the last of them. */
  function Split(b: bytes): (t: Text)
    decreases |b|
  {
    var i := IndexOf(b);
    if i == |b| then Text([], b)
    else Join(Text([b[..i]], []), Split(b[i + 1..]))
  }

  function Keys(r: Rules, lines: seq<bytes>): set<bytes> {
    set i | 0 <= i < |lines| && r.valid(lines[i]) :: r.trim(lines[i])
  }

  /** The keys of the valid lines, each at its first appearance, without those already seen. */
  function Fresh(r: Rules, lines: seq<bytes>, seen: set<bytes>): seq<bytes> {
    if lines == [] then []
    else
      var n := |lines| - 1;
      var before := Fresh(r, lines[..n], seen);
      if r.valid(lines[n]) && r.trim(lines[n]) !in seen + Keys(r, lines[..n])
        then before + [r.trim(lines[n])] else before
  }

  /** A line too long to be buffered is not valid, or its key is already out. */
  predicate HarmlessAt(r: Rules, seen: set<bytes>, lines: seq<bytes>, i: nat)
    requires i < |lines|
  {
    |lines[i]| > MAX_LINE_LEN && r.valid(lines[i]) ==> r.trim(lines[i]) in seen + Keys(r, lines[..i])
  }

  predicate Harmless(r: Rules, seen: set<bytes>, lines: seq<bytes>) {
    forall i :: 0 <= i < |lines| ==> HarmlessAt(r, seen, lines, i)
  }

  /** No line too long to be buffered is valid, ever. */
  ghost predicate LongInvalid(r: Rules) {
    forall l :: Plain(l) && |l| > MAX_LINE_LEN ==> !r.valid(l)
  }

  // ---- mergeTail, read by read ----

  datatype Merge = Merge(partial: bytes, skipping: bool, seen: set<bytes>, relay: seq<bytes>)

  function Take(r: Rules, m: Merge, line: bytes): Merge {
    if r.valid(line) && r.trim(line) !in m.seen
    then m.(seen := m.seen + {r.trim(line)}, relay := m.relay + [r.trim(line)]) else m
  }

  /** A newline after `front`: it ends the skipping, or the pending line. */
  function EndLine(r: Rules, m: Merge, front: bytes): Merge {
    if m.skipping then m.(skipping := false) else Take(r, m, m.partial + front).(partial := [])
  }

  /** What one read's bytes do. */
  function Eat(r: Rules, m: Merge, chunk: bytes): Merge
    decreases |chunk|
  {
    var i := IndexOf(chunk);
    if chunk == [] then m
    else if i == |chunk| then
      if m.skipping then m
      else if |m.partial + chunk| > MAX_LINE_LEN then m.(partial := [], skipping := true)
      else m.(partial := m.partial + chunk)
    else Eat(r, EndLine(r, m, chunk[..i]), chunk[i + 1..])
  }

  function EatAll(r: Rules, m: Merge, chunks: seq<bytes>): Merge
    decreases |chunks|
  {
    if chunks == [] then m else EatAll(r, Eat(r, m, chunks[0]), chunks[1..])
  }

  function Flat(chunks: seq<bytes>): bytes {
    if chunks == [] then [] else chunks[0] + Flat(chunks[1..])
  }

  /** After consuming lines and then an unfinished tail: the tail is pending, or known to be too long. */
  predicate Consumed(m: Merge, tail: bytes) {
    if m.skipping then m.partial == [] && |tail| > MAX_LINE_LEN else m.partial == tail
  }

  /** m has relayed what `lines` add to what m0 had. */
  predicate Relayed(r: Rules, m0: Merge, lines: seq<bytes>, m: Merge) {
    m.seen == m0.seen + Keys(r, lines) && m.relay == m0.relay + Fresh(r, lines, m0.seen)
  }

  // ---- lemmas about the plain meaning ----

  lemma {:induction false} IndexPast(a: bytes, b: bytes)
    requires Plain(a)
    ensures IndexOf(a + b) == |a| + IndexOf(b)
  {
    if a == [] {
      assert a + b == b;
    } else {
      assert (a + b)[1..] == a[1..] + b;
      IndexPast(a[1..], b);
    }
  }

  lemma PlainConcat(a: bytes, b: bytes)
    requires Plain(a) && Plain(b)
    ensures Plain(a + b)
  {
  }

  lemma KeysSnoc(r: Rules, lines: seq<bytes>, l: bytes)
    ensures Keys(r, lines + [l]) == Keys(r, lines) + (if r.valid(l) then {r.trim(l)} else {})
    ensures (lines + [l])[..|lines|] == lines
  {
    var k := Keys(r, lines + [l]);
    forall x | x in Keys(r, lines) ensures x in k {
      var i :| 0 <= i < |lines| && r.valid(lines[i]) && r.trim(lines[i]) == x;
      assert (lines + [l])[i] == lines[i];
    }
    if r.valid(l) {
      assert (lines + [l])[|lines|] == l;
    }
  }

  /** Relaying one more line. */
  lemma TakeRelays(r: Rules, m0: Merge, lines: seq<bytes>, m: Merge, l: bytes)
    requires Relayed(r, m0, lines, m)
    ensures Relayed(r, m0, lines + [l], Take(r, m, l))
  {
    KeysSnoc(r, lines, l);
    assert (lines + [l])[|lines|] == l;
  }

  /** A line that is not valid, or whose key is out already, relays nothing. */
  lemma SkipRelays(r: Rules, m0: Merge, lines: seq<bytes>, m: Merge, l: bytes)
    requires Relayed(r, m0, lines, m) && (r.valid(l) ==> r.trim(l) in m.seen)
    ensures Relayed(r, m0, lines + [l], m)
  {
    TakeRelays(r, m0, lines, m, l);
  }

  /** Splitting after an unfinished line. */
  lemma SplitLine(tail: bytes, chunk: bytes)
    requires Plain(tail)
    ensures IndexOf(chunk) == |chunk| ==> Split(tail + chunk) == Text([], tail + chunk) && Plain(tail + chunk)
    ensures var i := IndexOf(chunk);
            i < |chunk| ==> && Plain(tail + chunk[..i])
                            && Split(tail + chunk) == Join(Text([tail + chunk[..i]], []), Split(chunk[i + 1..]))
  {
    hide IndexOf, Plain;
    var i := IndexOf(chunk);
    IndexPast(tail, chunk);
    PlainConcat(tail, chunk[..i]);
    if i < |chunk| {
      assert (tail + chunk)[..|tail| + i] == tail + chunk[..i];
      assert (tail + chunk)[|tail| + i + 1..] == chunk[i + 1..];
    } else {
      assert chunk[..i] == chunk;
    }
  }

  /** A split's tail has no newline, and splitting more continues from it. */
  lemma {:induction false} SplitMore(a: bytes, b: bytes)
    ensures Plain(Split(a).tail)
    ensures Split(a + b) == Join(Split(a), Split(Split(a).tail + b))
    decreases |a|
  {
    hide IndexOf, Plain, Join;
    var i := IndexOf(a);
    if i < |a| {
      var t := Split(a[i + 1..]);
      SplitMore(a[i + 1..], b);
      IndexPast(a[..i], a[i..] + b);
      IndexHere(a[i..] + b);
      assert a + b == a[..i] + (a[i..] + b);
      assert (a + b)[..i] == a[..i];
      assert (a + b)[i + 1..] == a[i + 1..] + b;
      JoinJoin(Text([a[..i]], []), t, Split(t.tail + b));
      JoinTail(Text([a[..i]], []), t);
    } else {
      assert a[..i] == a;
      JoinJoin(Text([], a), Split(a + b), Split(a + b));
    }
  }

  lemma JoinTail(t: Text, u: Text)
    ensures Join(t, u).tail == u.tail
  {
  }

  lemma PlainEmpty()
    ensures Plain([])
  {
  }

  lemma IndexHere(b: bytes)
    ensures b != [] && b[0] == NEWLINE ==> IndexOf(b) == 0
  {
  }

  /** The bytes a text stands for. */
  function Unsplit(t: Text): bytes
    decreases |t.lines|
  {
    if t.lines == [] then t.tail else t.lines[0] + [NEWLINE] + Unsplit(Text(t.lines[1..], t.tail))
  }

  predicate AllPlain(t: Text) {
    Plain(t.tail) && forall i :: 0 <= i < |t.lines| ==> Plain(t.lines[i])
  }

  /** Splitting inverts the writing of lines: b's split is the one text of newline-free pieces that b spells out. */
  lemma {:induction false} SplitIff(b: bytes, t: Text)
    ensures Split(b) == t <==> AllPlain(t) && Unsplit(t) == b
    decreases |b|, |t.lines|
  {
    hide Plain, IndexOf;
    SplitUnsplits(b);
    if AllPlain(t) && Unsplit(t) == b {
      UnsplitSplits(t);
    }
  }

  lemma {:induction false} SplitUnsplits(b: bytes)
    ensures AllPlain(Split(b)) && Unsplit(Split(b)) == b
    decreases |b|
  {
    hide Plain, IndexOf;
    var i := IndexOf(b);
    if i == |b| {
      assert b[..i] == b;
    } else {
      SplitUnsplits(b[i + 1..]);
      var u := Split(b[i + 1..]);
      assert Split(b) == Text([b[..i]] + u.lines, u.tail);
      assert ([b[..i]] + u.lines)[1..] == u.lines;
      assert b == b[..i] + [NEWLINE] + b[i + 1..];
    }
  }

  lemma {:induction false} UnsplitSplits(t: Text)
    requires AllPlain(t)
    ensures Split(Unsplit(t)) == t
    decreases |t.lines|
  {
    hide Plain, Split, IndexOf;
    if t.lines == [] {
      PlainIndex(t.tail);
      NoNewline(t.tail);
    } else {
      var u := Text(t.lines[1..], t.tail);
      UnsplitSplits(u);
      SplitCons(t.lines[0], Unsplit(u));
    }
  }

  lemma NoNewline(b: bytes)
    requires IndexOf(b) == |b|
    ensures Split(b) == Text([], b)
  {
  }

  predicate Distinct(keys: seq<bytes>) {
    forall i, j :: 0 <= i < j < |keys| ==> keys[i] != keys[j]
  }

  lemma DistinctSnoc(keys: seq<bytes>, x: bytes)
    requires Distinct(keys) && x !in keys
    ensures Distinct(keys + [x])
  {
  }

  lemma DistinctNone()
    ensures Distinct([])
  {
  }

  /** Fresh gives each key that is not yet out once, and the keys of earlier lines before those of later ones. */
  lemma {:induction false} FreshOnce(r: Rules, lines: seq<bytes>, seen: set<bytes>)
    ensures forall x :: x in Fresh(r, lines, seen) <==> x in Keys(r, lines) && x !in seen
    ensures Distinct(Fresh(r, lines, seen))
    ensures forall n :: 0 <= n <= |lines| ==> Fresh(r, lines[..n], seen) <= Fresh(r, lines, seen)
  {
    hide Keys, Distinct;
    if lines == [] {
      NoKeys(r);
      DistinctNone();
    } else {
      var k := |lines| - 1;
      FreshOnce(r, lines[..k], seen);
      KeysSnoc(r, lines[..k], lines[k]);
      assert lines == lines[..k] + [lines[k]];
      var before := Fresh(r, lines[..k], seen);
      if r.trim(lines[k]) !in before {
        DistinctSnoc(before, r.trim(lines[k]));
      }
      forall n | 0 <= n <= |lines| ensures Fresh(r, lines[..n], seen) <= Fresh(r, lines, seen) {
        if n <= k {
          assert lines[..k][..n] == lines[..n];
        } else {
          assert lines[..n] == lines;
        }
      }
    }
  }

  // ---- the splitter refines the plain meaning ----

  lemma HarmlessFront(r: Rules, seen: set<bytes>, a: seq<bytes>, b: seq<bytes>)
    requires Harmless(r, seen, a + b)
    ensures Harmless(r, seen, a)
  {
    hide Keys;
    forall i | 0 <= i < |a| ensures HarmlessAt(r, seen, a, i) {
      assert HarmlessAt(r, seen, a + b, i) && (a + b)[..i] == a[..i];
    }
  }

  lemma HarmlessRest(r: Rules, seen: set<bytes>, a: seq<bytes>, b: seq<bytes>)
    requires Harmless(r, seen, a + b)
    ensures Harmless(r, seen + Keys(r, a), b)
  {
    hide Keys;
    forall i | 0 <= i < |b| ensures HarmlessAt(r, seen + Keys(r, a), b, i) {
      assert HarmlessAt(r, seen, a + b, |a| + i) && (a + b)[..|a| + i] == a + b[..i];
      KeysAppend(r, a, b[..i]);
    }
  }

  /** The lines of a longer text begin with those of its front. */
  lemma HarmlessText(r: Rules, seen: set<bytes>, a: bytes, b: bytes)
    requires Harmless(r, seen, Split(a + b).lines)
    ensures Harmless(r, seen, Split(a).lines)
  {
    hide Harmless, Split;
    SplitMore(a, b);
    HarmlessFront(r, seen, Split(a).lines, Split(Split(a).tail + b).lines);
  }

  /** One read: the bytes' lines are relayed and their tail is pending, wherever the read began. */
  lemma {:induction false} EatSplits(r: Rules, m0: Merge, lines: seq<bytes>, m: Merge, tail: bytes, chunk: bytes)
    requires Plain(tail) && Consumed(m, tail) && Relayed(r, m0, lines, m)
    requires Harmless(r, m0.seen, lines + Split(tail + chunk).lines)
    ensures var t := Split(tail + chunk);
            Consumed(Eat(r, m, chunk), t.tail) && Relayed(r, m0, lines + t.lines, Eat(r, m, chunk))
    decreases |chunk|
  {
    hide Relayed, Split, Plain, IndexOf, EndLine, Harmless;
    PlainEmpty();
    var i := IndexOf(chunk);
    SplitLine(tail, chunk);
    if chunk == [] {
      assert i == |chunk| && tail + chunk == tail && lines + [] == lines;
    } else if i == |chunk| {
      assert lines + [] == lines;
      PendingKeepsRelay(r, m0, lines, m, Eat(r, m, chunk));
    } else {
      var line, rest := tail + chunk[..i], chunk[i + 1..];
      var next := EndLine(r, m, chunk[..i]);
      assert [] + rest == rest;
      JoinJoin(Text(lines, []), Text([line], []), Split(rest));
      HarmlessFront(r, m0.seen, lines + [line], Split(rest).lines);
      EndLineRelays(r, m0, lines, m, tail, chunk[..i]);
      EatSplits(r, m0, lines + [line], next, [], rest);
    }
  }

  lemma EndLineRelays(r: Rules, m0: Merge, lines: seq<bytes>, m: Merge, tail: bytes, front: bytes)
    requires Plain(tail + front) && Consumed(m, tail) && Relayed(r, m0, lines, m)
    requires Harmless(r, m0.seen, lines + [tail + front])
    ensures Consumed(EndLine(r, m, front), []) && Relayed(r, m0, lines + [tail + front], EndLine(r, m, front))
  {
    hide Relayed, Plain, Harmless;
    var line, next := tail + front, EndLine(r, m, front);
    if m.skipping {
      LastHarmless(r, m0, lines, m, line);
      SkipRelays(r, m0, lines, m, line);
      PendingKeepsRelay(r, m0, lines + [line], m, next);
    } else {
      TakeRelays(r, m0, lines, m, line);
      PendingKeepsRelay(r, m0, lines + [line], Take(r, m, line), next);
    }
  }

  lemma LastHarmless(r: Rules, m0: Merge, lines: seq<bytes>, m: Merge, line: bytes)
    requires Relayed(r, m0, lines, m) && Harmless(r, m0.seen, lines + [line]) && |line| > MAX_LINE_LEN
    ensures r.valid(line) ==> r.trim(line) in m.seen
  {
    assert HarmlessAt(r, m0.seen, lines + [line], |lines|);
    assert (lines + [line])[..|lines|] == lines;
  }

  lemma PendingKeepsRelay(r: Rules, m0: Merge, lines: seq<bytes>, m: Merge, n: Merge)
    requires Relayed(r, m0, lines, m) && n.seen == m.seen && n.relay == m.relay
    ensures Relayed(r, m0, lines, n)
  {
  }

  lemma {:induction false} EatAllSplits(r: Rules, m0: Merge, lines: seq<bytes>, m: Merge, tail: bytes,
      chunks: seq<bytes>)
    requires Plain(tail) && Consumed(m, tail) && Relayed(r, m0, lines, m)
    requires Harmless(r, m0.seen, lines + Split(tail + Flat(chunks)).lines)
    ensures var t := Split(tail + Flat(chunks));
            Consumed(EatAll(r, m, chunks), t.tail) && Relayed(r, m0, lines + t.lines, EatAll(r, m, chunks))
    decreases |chunks|
  {
    hide Relayed, Eat, Consumed, Split, Plain, IndexOf, Harmless;
    if chunks == [] {
      SplitLine(tail, []);
      assert IndexOf([]) == 0;
      assert tail + [] == tail && lines + [] == lines;
    } else {
      var a, rest := chunks[0], Flat(chunks[1..]);
      SplitMore(tail + a, rest);
      assert tail + Flat(chunks) == tail + a + rest;
      var t := Split(tail + a);
      JoinJoin(Text(lines, []), t, Split(t.tail + rest));
      HarmlessFront(r, m0.seen, lines + t.lines, Split(t.tail + rest).lines);
      EatSplits(r, m0, lines, m, tail, a);
      EatAllSplits(r, m0, lines + t.lines, Eat(r, m, a), t.tail, chunks[1..]);
    }
  }

  function Empty(): Merge { Merge([], false, {}, []) }

  /** However the bytes of the file arrive, at every length it has on the way, the relay gets what they mean. */
  ghost predicate ChunkFree(r: Rules, file: bytes) {
    forall chunks :: Flat(chunks) <= file ==>
      EatAll(r, Empty(), chunks).relay == Fresh(r, Split(Flat(chunks)).lines, {})
  }

  /**
   The relay of a file is independent of how its bytes arrive exactly when each of its
   lines over 256 bytes is invalid or repeats a key that is already out.
   */
  lemma ChunkFreeIff(r: Rules, file: bytes)
    ensures ChunkFree(r, file) <==> Harmless(r, {}, Split(file).lines)
  {
    hide Split, Harmless, Fresh, EatAll;
    if Harmless(r, {}, Split(file).lines) {
      forall chunks | Flat(chunks) <= file
        ensures EatAll(r, Empty(), chunks).relay == Fresh(r, Split(Flat(chunks)).lines, {})
      {
        Arrives(r, file, chunks);
      }
    }
    if ChunkFree(r, file) && !Harmless(r, {}, Split(file).lines) {
      var i := FirstHarm(r, Split(file).lines);
      LosesKey(r, file, i);
    }
  }

  lemma Arrives(r: Rules, file: bytes, chunks: seq<bytes>)
    requires Harmless(r, {}, Split(file).lines) && Flat(chunks) <= file
    ensures EatAll(r, Empty(), chunks).relay == Fresh(r, Split(Flat(chunks)).lines, {})
  {
    hide Split, Harmless, Fresh, EatAll, Keys;
    var b := Flat(chunks);
    assert b + file[|b|..] == file;
    HarmlessText(r, {}, b, file[|b|..]);
    NothingNew(r, Empty());
    PlainEmpty();
    assert [] + b == b && [] + Split(b).lines == Split(b).lines;
    EatAllSplits(r, Empty(), [], Empty(), [], chunks);
  }

  lemma FirstHarm(r: Rules, lines: seq<bytes>) returns (i: nat)
    requires !Harmless(r, {}, lines)
    ensures i < |lines| && !HarmlessAt(r, {}, lines, i) && Harmless(r, {}, lines[..i])
  {
    hide Keys;
    i := 0;
    while HarmlessAt(r, {}, lines, i)
      invariant i < |lines| && forall k :: 0 <= k < i ==> HarmlessAt(r, {}, lines, k)
      decreases |lines| - i
    {
      i := i + 1;
    }
    forall k | 0 <= k < i ensures HarmlessAt(r, {}, lines[..i], k) {
      assert HarmlessAt(r, {}, lines, k) && lines[..i][..k] == lines[..k];
    }
  }

  lemma SplitCons(l: bytes, b: bytes)
    requires Plain(l)
    ensures Split(l + [NEWLINE] + b) == Text([l] + Split(b).lines, Split(b).tail)
  {
    hide Split, Plain;
    LineSplits(l);
    SplitMore(l + [NEWLINE], b);
    assert [] + b == b;
  }

  /** A text with a finished line is that line, its newline and the rest. */
  lemma FirstLine(file: bytes) returns (l: bytes, rest: bytes)
    requires Split(file).lines != []
    ensures Plain(l) && file == l + [NEWLINE] + rest
  {
    hide Plain;
    var k := IndexOf(file);
    l, rest := file[..k], file[k + 1..];
  }

  /** Line i and the bytes before it. */
  lemma {:induction false} LineAt(file: bytes, i: nat) returns (a: bytes)
    requires i < |Split(file).lines|
    ensures var l := Split(file).lines[i];
            && Plain(l) && Split(a) == Text(Split(file).lines[..i], []) && a + (l + [NEWLINE]) <= file
    decreases i
  {
    hide Plain, Split, IndexOf;
    var l0, rest := FirstLine(file);
    SplitCons(l0, rest);
    if i == 0 {
      a := [];
      EmptySplits();
    } else {
      var b := LineAt(rest, i - 1);
      a := l0 + [NEWLINE] + b;
      SplitCons(l0, b);
      Behind(l0 + [NEWLINE], b, Split(rest).lines[i - 1] + [NEWLINE], rest);
      assert Split(file).lines[..i] == [l0] + Split(rest).lines[..i - 1];
    }
  }

  lemma EmptySplits()
    ensures Split([]) == Text([], [])
  {
  }

  lemma Behind(front: bytes, b: bytes, x: bytes, rest: bytes)
    requires b + x <= rest
    ensures front + b + x <= front + rest
  {
    assert front + b + x == front + (b + x);
  }

  /** A long valid line with a key not yet out: cut before its newline it is lost. */
  lemma LosesKey(r: Rules, file: bytes, i: nat)
    requires i < |Split(file).lines| && !HarmlessAt(r, {}, Split(file).lines, i)
      && Harmless(r, {}, Split(file).lines[..i])
    ensures !ChunkFree(r, file)
  {
    hide Split, Harmless, Fresh, Keys, Eat, Plain;
    var lines := Split(file).lines;
    var l, nl := lines[i], [NEWLINE];
    var a := LineAt(file, i);
    var chunks := [a, l, nl];
    FlatThree(a, l, nl);
    assert Flat(chunks) <= file;
    SplitLine([], l + nl) by { PlainEmpty(); }
    LineSplits(l);
    SplitMore(a, l + nl);
    assert [] + (l + nl) == l + nl;
    assert Split(Flat(chunks)).lines == lines[..i] + [l];
    PlainEmpty();
    NothingNew(r, Empty());
    assert [] + a == a && [] + lines[..i] == lines[..i];
    EatSplits(r, Empty(), [], Empty(), [], a);
    var m := Eat(r, Empty(), a);
    SkipsLong(r, m, l);
    EatThree(r, a, l, nl);
    FreshKey(r, lines[..i], l);
    RelayIs(r, Empty(), lines[..i], m);
  }

  lemma RelayIs(r: Rules, m0: Merge, lines: seq<bytes>, m: Merge)
    requires Relayed(r, m0, lines, m)
    ensures m.relay == m0.relay + Fresh(r, lines, m0.seen)
  {
  }

  lemma FlatThree(a: bytes, b: bytes, c: bytes)
    ensures Flat([a, b, c]) == a + (b + c)
  {
    assert [a, b, c][1..] == [b, c] && [b, c][1..] == [c] && [c][1..] == [];
    assert Flat([c]) == c;
    assert Flat([b, c]) == b + c;
  }

  lemma EatThree(r: Rules, a: bytes, b: bytes, c: bytes)
    ensures EatAll(r, Empty(), [a, b, c]) == Eat(r, Eat(r, Eat(r, Empty(), a), b), c)
  {
    hide Eat;
    var m := Eat(r, Empty(), a);
    assert [a, b, c][1..] == [b, c] && [b, c][1..] == [c] && [c][1..] == [];
    assert EatAll(r, Eat(r, m, b), [c]) == Eat(r, Eat(r, m, b), c);
    assert EatAll(r, m, [b, c]) == Eat(r, Eat(r, m, b), c);
  }

  lemma SkipsLong(r: Rules, m: Merge, l: bytes)
    requires Consumed(m, []) && Plain(l) && |l| > MAX_LINE_LEN
    ensures Eat(r, Eat(r, m, l), [NEWLINE]).relay == m.relay
  {
    hide Plain, Take;
    var nl: bytes := [NEWLINE];
    PlainIndex(l);
    assert [] + l == l && nl[1..] == [];
  }

  lemma FreshKey(r: Rules, lines: seq<bytes>, l: bytes)
    requires r.valid(l) && r.trim(l) !in Keys(r, lines)
    ensures Fresh(r, lines + [l], {}) == Fresh(r, lines, {}) + [r.trim(l)]
  {
    assert (lines + [l])[..|lines|] == lines;
  }

  /** So a test that no over-long line passes makes every file safe, and no other test does. */
  lemma AlwaysChunkFreeIff(r: Rules)
    ensures (forall file :: ChunkFree(r, file)) <==> LongInvalid(r)
  {
    hide Split, EatAll, Fresh;
    if LongInvalid(r) {
      forall file ensures ChunkFree(r, file) {
        LinesArePlain(file);
        ChunkFreeIff(r, file);
      }
    }
    if forall file :: ChunkFree(r, file) {
      forall l: bytes | Plain(l) && |l| > MAX_LINE_LEN ensures !r.valid(l) {
        CutLongLine(r, l);
        assert ChunkFree(r, Flat([l, [NEWLINE]]));
      }
    }
  }

  lemma LinesArePlain(file: bytes)
    ensures forall i :: 0 <= i < |Split(file).lines| ==> Plain(Split(file).lines[i])
  {
    forall i | 0 <= i < |Split(file).lines| ensures Plain(Split(file).lines[i]) {
      var _ := LineAt(file, i);
    }
  }

  /** A long line and its newline in two reads: the line is dropped, though in one read it would be judged. */
  lemma CutLongLine(r: Rules, l: bytes)
    requires Plain(l) && |l| > MAX_LINE_LEN
    ensures EatAll(r, Empty(), [l, [NEWLINE]]).relay == []
    ensures Fresh(r, Split(Flat([l, [NEWLINE]])).lines, {}) == if r.valid(l) then [r.trim(l)] else []
  {
    var nl: bytes := [NEWLINE];
    assert Flat([nl]) == nl && [l, nl][1..] == [nl];
    LongLineDropped(r, l);
    LineSplits(l);
    FreshOne(r, l);
  }

  lemma LongLineDropped(r: Rules, l: bytes)
    requires Plain(l) && |l| > MAX_LINE_LEN
    ensures EatAll(r, Empty(), [l, [NEWLINE]]).relay == []
  {
    hide Plain, Take;
    var nl: bytes := [NEWLINE];
    PlainIndex(l);
    var m := Merge([], true, {}, []);
    assert Eat(r, Empty(), l) == m by { assert [] + l == l; }
    assert nl[1..] == [] && [l, nl][1..] == [nl] && [nl][1..] == [];
    assert EatAll(r, m, [nl]) == Eat(r, m, nl);
  }

  lemma LineSplits(l: bytes)
    requires Plain(l)
    ensures Split(l + [NEWLINE]) == Text([l], [])
  {
    hide Plain;
    SplitLine(l, [NEWLINE]);
    assert [NEWLINE][1..] == [] && l + [NEWLINE][..0] == l;
  }

  lemma FreshOne(r: Rules, l: bytes)
    ensures Fresh(r, [l], {}) == if r.valid(l) then [r.trim(l)] else []
  {
    NoKeys(r);
    assert [l][..0] == [];
  }

  lemma NoKeys(r: Rules)
    ensures Keys(r, []) == {}
  {
  }

  lemma PlainIndex(l: bytes)
    requires Plain(l)
    ensures IndexOf(l) == |l|
  {
    IndexPast(l, []);
    assert l + [] == l;
  }

  // ---- across ticks ----

  /** How far a file has been relayed, and whether the rest of a too-long line is being skipped. */
  datatype Mark = Mark(off: nat, skipping: bool)

  /** A mark stands at a line start, or inside a line already too long to be valid. */
  predicate MarkOk(file: bytes, k: Mark) {
    k.off <= |file| && var t := Split(file[..k.off]).tail; if k.skipping then |t| > MAX_LINE_LEN else t == []
  }

  /** The lines that became complete after the mark. */
  function NewLines(file: bytes, off: nat): seq<bytes>
    requires off <= |file|
  {
    Split(Split(file[..off]).tail + file[off..]).lines
  }

  lemma NewLinesAre(file: bytes, off: nat)
    requires off <= |file|
    ensures Split(file).lines == Split(file[..off]).lines + NewLines(file, off)
    ensures Split(file).tail == Split(Split(file[..off]).tail + file[off..]).tail
  {
    hide Split;
    SplitMore(file[..off], file[off..]);
    assert file[..off] + file[off..] == file;
  }

  /** Growth does not disturb a mark. */
  lemma MarkStays(file: bytes, k: Mark, more: bytes)
    requires MarkOk(file, k) && file <= more
    ensures MarkOk(more, k) && more[..k.off] == file[..k.off]
  {
    hide Split;
    assert more[..k.off] == file[..k.off];
  }

  /** Rewinding over the unfinished line leaves exactly the finished ones. */
  lemma {:induction false} SplitCut(b: bytes)
    ensures |Split(b).tail| <= |b| && Split(b[..|b| - |Split(b).tail|]) == Text(Split(b).lines, [])
    decreases |b|
  {
    hide Split, Plain;
    EmptySplits();
    if Split(b).lines == [] {
      NoLines(b);
    } else {
      var l, rest := FirstLine(b);
      SplitCut(rest);
      var cut := rest[..|rest| - |Split(rest).tail|];
      SplitCons(l, rest);
      SplitCons(l, cut);
      assert b[..|b| - |Split(rest).tail|] == l + [NEWLINE] + cut;
    }
  }

  lemma NoLines(b: bytes)
    requires Split(b).lines == []
    ensures Split(b).tail == b
  {
  }

  lemma KeysAppend(r: Rules, a: seq<bytes>, b: seq<bytes>)
    ensures Keys(r, a + b) == Keys(r, a) + Keys(r, b)
    decreases |b|
  {
    hide Keys;
    if b == [] {
      NoKeys(r);
      assert a + b == a;
    } else {
      var n := |b| - 1;
      KeysAppend(r, a, b[..n]);
      KeysSnoc(r, a + b[..n], b[n]);
      KeysSnoc(r, b[..n], b[n]);
      assert a + b == a + b[..n] + [b[n]] && b == b[..n] + [b[n]];
    }
  }

  lemma {:induction false} FreshAppend(r: Rules, a: seq<bytes>, b: seq<bytes>, seen: set<bytes>)
    ensures Fresh(r, a + b, seen) == Fresh(r, a, seen) + Fresh(r, b, seen + Keys(r, a))
    decreases |b|
  {
    hide Keys;
    if b == [] {
      assert a + b == a;
    } else {
      var n := |b| - 1;
      FreshAppend(r, a, b[..n], seen);
      KeysAppend(r, a, b[..n]);
      assert (a + b)[..|a| + n] == a + b[..n];
      assert seen + (Keys(r, a) + Keys(r, b[..n])) == seen + Keys(r, a) + Keys(r, b[..n]);
    }
  }

  lemma RelayedThen(r: Rules, m0: Merge, a: seq<bytes>, m: Merge, b: seq<bytes>, n: Merge)
    requires Relayed(r, m0, a, m) && Relayed(r, m, b, n)
    ensures Relayed(r, m0, a + b, n)
  {
    hide Keys, Fresh;
    KeysAppend(r, a, b);
    FreshAppend(r, a, b, m0.seen);
  }

  class Reconciler {
    const rules: Rules
    var seen: set<bytes>
    var relay: seq<bytes>

    constructor (rules: Rules, seen: set<bytes>, relay: seq<bytes>)
      ensures this.rules == rules && this.seen == seen && this.relay == relay
    {
      this.rules, this.seen, this.relay := rules, seen, relay;
    }

    ghost function State(): Merge
      reads this
    {
      Merge([], false, seen, relay)
    }

    /** mergeTail's inner loop: one read's bytes, line by line. */
    method Consume(off: nat, partial: bytes, skipping: bool, read: bytes) returns (off': nat, partial': bytes,
        skipping': bool)
      modifies this
      ensures off' == off + |read|
      ensures Merge(partial', skipping', seen, relay) == Eat(rules, old(Merge(partial, skipping, seen, relay)), read)
    {
      hide IndexOf, Plain;
      off', partial', skipping' := off, partial, skipping;
      var chunk := read;
      while chunk != []
        invariant off' + |chunk| == off + |read|
        invariant Eat(rules, Merge(partial', skipping', seen, relay), chunk)
               == Eat(rules, old(Merge(partial, skipping, seen, relay)), read)
        decreases |chunk|
      {
        var i := IndexOf(chunk);
        if i == |chunk| {
          off' := off' + |chunk|;
          if !skipping' {
            partial' := partial' + chunk;
            if |partial'| > MAX_LINE_LEN {
              partial', skipping' := [], true;
            }
          }
          return;
        }
        off' := off' + i + 1;
        if skipping' {
          skipping' := false;
        } else {
          var line := partial' + chunk[..i];
          if rules.valid(line) && rules.trim(line) !in seen {
            seen, relay := seen + {rules.trim(line)}, relay + [rules.trim(line)];
          }
          partial' := [];
        }
        chunk := chunk[i + 1..];
      }
    }

    /**
     mergeTail: relay the lines completed since the mark. `sizes` are the lengths of
     the reads, whatever they turn out to be; the last ones fill the buffer.
     */
    method MergeTail(file: bytes, k: Mark, sizes: seq<nat>) returns (k': Mark)
      requires MarkOk(file, k) && Harmless(rules, seen, NewLines(file, k.off))
      modifies this
      ensures Settled(file, k') && Relayed(rules, old(State()), NewLines(file, k.off), State())
    {
      hide Merged, Relayed, Eat, Split, Harmless, Settled;
      ghost var m0 := State();
      var off, partial, skipping := k.off, [], k.skipping;
      var i := 0;
      StartsAt(file, k, rules, m0);
      while off < |file|
        invariant k.off <= off <= |file| && Merged(rules, m0, file, k, off, Merge(partial, skipping, seen, relay))
        decreases |file| - off
      {
        var size := if i < |sizes| && sizes[i] > 0 then sizes[i] else BUFFER_LEN;
        var end := if off + size <= |file| then off + size else |file|;
        ReadMore(rules, m0, file, k, off, end, Merge(partial, skipping, seen, relay));
        off, partial, skipping := Consume(off, partial, skipping, file[off..end]);
        i := i + 1;
      }
      Finished(rules, m0, file, k, Merge(partial, skipping, seen, relay));
      k' := Mark(off - |partial|, skipping);
      PendingKeepsRelay(rules, m0, NewLines(file, k.off), Merge(partial, skipping, seen, relay), State());
    }

    /**
     One file over any number of ticks: however it grows between them and however each
     tick reads it, the relay gets exactly the not yet seen keys of its finished lines,
     in order and once each.
     */
    method Ticks(grown: seq<bytes>, sizes: seq<seq<nat>>) returns (k: Mark)
      requires |sizes| == |grown| > 0 && Harmless(rules, seen, Split(grown[|grown| - 1]).lines)
      requires forall i, j :: 0 <= i < j < |grown| ==> grown[i] <= grown[j]
      modifies this
      ensures var file := grown[|grown| - 1];
              Settled(file, k) && Relayed(rules, old(State()), Split(file).lines, State())
    {
      hide Relayed, Split, Harmless, Settled;
      ghost var m0, whole := State(), grown[|grown| - 1];
      FreshMark(grown[0]);
      HarmlessPrefix(rules, m0.seen, grown[0], whole);
      k := MergeTail(grown[0], Mark(0, false), sizes[0]);
      for i := 1 to |grown|
        invariant Settled(grown[i - 1], k)
        invariant Relayed(rules, m0, Split(grown[i - 1]).lines, State())
      {
        SettledOk(grown[i - 1], k);
        MarkStays(grown[i - 1], k, grown[i]);
        NewLinesAre(grown[i], k.off);
        ghost var m, off := State(), k.off;
        HarmlessPrefix(rules, m0.seen, grown[i], whole);
        HarmlessRest(rules, m0.seen, Split(grown[i - 1]).lines, NewLines(grown[i], off));
        SeenIs(rules, m0, Split(grown[i - 1]).lines, m);
        k := MergeTail(grown[i], k, sizes[i]);
        RelayedThen(rules, m0, Split(grown[i - 1]).lines, m, NewLines(grown[i], off), State());
      }
    }

    /** mergeOnce: every listed file in turn, all deduplicated together; one that cannot be opened is left alone. */
    method MergeOnce(names: seq<nat>, files: map<nat, bytes>, marks: map<nat, Mark>) returns (marks': map<nat, Mark>)
      requires Harmless(rules, seen, AllNew(names, files, marks))
      requires forall i, j :: 0 <= i < j < |names| ==> names[i] != names[j]
      requires forall n :: n in marks && n in files ==> MarkOk(files[n], marks[n])
      modifies this
      ensures forall n :: n in marks' && n in files ==> MarkOk(files[n], marks'[n])
      ensures forall j :: 0 <= j < |names| && names[j] in files ==>
                            names[j] in marks' && Settled(files[names[j]], marks'[names[j]])
      ensures forall n :: n !in names || n !in files ==> MarkIn(marks', n) == MarkIn(marks, n)
      ensures Relayed(rules, old(State()), AllNew(names, files, marks), State())
    {
      hide Relayed, Split, Harmless, MarkOk, Settled, NewLines, AllNew;
      ghost var m0 := State();
      marks' := marks;
      NothingNew(rules, m0);
      NoFiles(files, marks);
      for i := 0 to |names|
        invariant forall n :: n in marks' && n in files ==> MarkOk(files[n], marks'[n])
        invariant forall j :: i <= j < |names| ==> MarkIn(marks', names[j]) == MarkIn(marks, names[j])
        invariant forall j :: 0 <= j < i && names[j] in files ==>
                                names[j] in marks' && Settled(files[names[j]], marks'[names[j]])
        invariant forall n :: n !in names || n !in files ==> MarkIn(marks', n) == MarkIn(marks, n)
        invariant Relayed(rules, m0, AllNew(names[..i], files, marks), State())
      {
        var n := names[i];
        AllNewNext(names, i, files, marks);
        if n !in files {
          assert AllNew(names[..i], files, marks) + [] == AllNew(names[..i], files, marks);
          continue;
        }
        FreshMark(files[n]);
        MarkInside(files[n], MarkIn(marks', n));
        ghost var m := State();
        FileHarmless(rules, m0, names, i, files, marks, m);
        var k := MergeTail(files[n], MarkIn(marks', n), []);
        marks' := marks'[n := k];
        SettledOk(files[n], k);
        RelayedThen(rules, m0, AllNew(names[..i], files, marks), m, NewLines(files[n], MarkIn(marks, n).off), State());
      }
      assert names[..|names|] == names;
    }
  }

  function MarkIn(marks: map<nat, Mark>, n: nat): Mark {
    if n in marks then marks[n] else Mark(0, false)
  }

  /** The lines one file gained since its mark; none if it cannot be opened. */
  function Added(n: nat, files: map<nat, bytes>, marks: map<nat, Mark>): seq<bytes> {
    if n in files && MarkIn(marks, n).off <= |files[n]| then NewLines(files[n], MarkIn(marks, n).off) else []
  }

  /** A file that is there adds what its lines are past those behind its mark; one that is not adds nothing. */
  lemma AddedIs(n: nat, files: map<nat, bytes>, marks: map<nat, Mark>)
    requires n in files ==> MarkOk(files[n], MarkIn(marks, n))
    ensures n !in files ==> Added(n, files, marks) == []
    ensures n in files ==> Split(files[n]).lines
                           == Split(files[n][..MarkIn(marks, n).off]).lines + Added(n, files, marks)
    ensures n in files && n !in marks ==> Added(n, files, marks) == Split(files[n]).lines
  {
    hide Split, NewLines;
    if n in files {
      MarkInside(files[n], MarkIn(marks, n));
      NewLinesAre(files[n], MarkIn(marks, n).off);
      FreshMark(files[n]);
    }
  }

  /** The lines each file gained, file after file. */
  function AllNew(names: seq<nat>, files: map<nat, bytes>, marks: map<nat, Mark>): seq<bytes> {
    if names == [] then [] else AllNew(names[..|names| - 1], files, marks) + Added(names[|names| - 1], files, marks)
  }

  /** What the files from i on add. */
  function AllNewAfter(names: seq<nat>, i: nat, files: map<nat, bytes>, marks: map<nat, Mark>): seq<bytes>
    requires i <= |names|
    decreases |names| - i
  {
    if i == |names| then [] else Added(names[i], files, marks) + AllNewAfter(names, i + 1, files, marks)
  }

  lemma NoFiles(files: map<nat, bytes>, marks: map<nat, Mark>)
    ensures AllNew([], files, marks) == []
  {
  }

  lemma AllNewNext(names: seq<nat>, i: nat, files: map<nat, bytes>, marks: map<nat, Mark>)
    requires i < |names|
    ensures AllNew(names[..i + 1], files, marks) == AllNew(names[..i], files, marks) + Added(names[i], files, marks)
  {
    hide Added;
    assert names[..i + 1][..i] == names[..i];
  }

  lemma {:induction false} AllNewFront(names: seq<nat>, i: nat, files: map<nat, bytes>, marks: map<nat, Mark>)
    requires i <= |names|
    ensures AllNew(names, files, marks) == AllNew(names[..i], files, marks) + AllNewAfter(names, i, files, marks)
    decreases |names| - i
  {
    hide AllNew, Added;
    if i == |names| {
      assert names[..i] == names;
    } else {
      AllNewNext(names, i, files, marks);
      AllNewFront(names, i + 1, files, marks);
      JoinJoin(Text(AllNew(names[..i], files, marks), []), Text(Added(names[i], files, marks), []),
               Text(AllNewAfter(names, i + 1, files, marks), []));
    }
  }

  lemma SeenIs(r: Rules, m0: Merge, lines: seq<bytes>, m: Merge)
    requires Relayed(r, m0, lines, m)
    ensures m.seen == m0.seen + Keys(r, lines)
  {
  }

  lemma HarmlessPrefix(r: Rules, seen: set<bytes>, a: bytes, whole: bytes)
    requires a <= whole && Harmless(r, seen, Split(whole).lines)
    ensures Harmless(r, seen, Split(a).lines)
  {
    hide Harmless, Split;
    assert a + whole[|a|..] == whole;
    HarmlessText(r, seen, a, whole[|a|..]);
  }

  /** What file i adds is harmless once what the files before it add is out. */
  lemma FileHarmless(r: Rules, m0: Merge, names: seq<nat>, i: nat, files: map<nat, bytes>, marks: map<nat, Mark>,
      m: Merge)
    requires i < |names| && names[i] in files && MarkIn(marks, names[i]).off <= |files[names[i]]|
    requires Harmless(r, m0.seen, AllNew(names, files, marks)) && Relayed(r, m0, AllNew(names[..i], files, marks), m)
    ensures Harmless(r, m.seen, NewLines(files[names[i]], MarkIn(marks, names[i]).off))
  {
    hide Harmless, AllNew, AllNewAfter, NewLines, Relayed, Keys;
    var before, added := AllNew(names[..i], files, marks), Added(names[i], files, marks);
    AllNewNext(names, i, files, marks);
    AllNewFront(names, i + 1, files, marks);
    HarmlessFront(r, m0.seen, before + added, AllNewAfter(names, i + 1, files, marks));
    HarmlessRest(r, m0.seen, before, added);
    SeenIs(r, m0, before, m);
  }

  lemma SettledOk(file: bytes, k: Mark)
    requires Settled(file, k)
    ensures MarkOk(file, k) && Split(file[..k.off]).lines == Split(file).lines
  {
  }

  lemma FreshMark(file: bytes)
    ensures MarkOk(file, Mark(0, false)) && NewLines(file, 0) == Split(file).lines
  {
    assert Split(file[..0]) == Text([], []);
    assert [] + file[0..] == file;
  }

  lemma NothingNew(r: Rules, m: Merge)
    ensures Relayed(r, m, [], m)
  {
    NoKeys(r);
  }

  lemma MarkInside(file: bytes, k: Mark)
    requires MarkOk(file, k)
    ensures k.off <= |file|
  {
  }

  /** What a tick has read by the time it stands at off, with the line its mark stands in. */
  function Got(file: bytes, k: Mark, off: nat): bytes
    requires k.off <= off <= |file|
  {
    Split(file[..k.off]).tail + file[k.off..off]
  }

  /** The tick has relayed the lines of what it has read, and their tail is pending. */
  predicate Merged(r: Rules, m0: Merge, file: bytes, k: Mark, off: nat, m: Merge)
    requires k.off <= off <= |file|
  {
    Consumed(m, Split(Got(file, k, off)).tail) && Relayed(r, m0, Split(Got(file, k, off)).lines, m)
  }

  lemma StartsAt(file: bytes, k: Mark, r: Rules, m: Merge)
    requires MarkOk(file, k)
    ensures Merged(r, m, file, k, k.off, Merge([], k.skipping, m.seen, m.relay))
  {
    hide IndexOf, Plain;
    var t := Split(file[..k.off]).tail;
    assert Got(file, k, k.off) == t;
    SplitMore(file[..k.off], []);
    PlainIndex(t);
    NoKeys(r);
  }

  lemma ReadMore(r: Rules, m0: Merge, file: bytes, k: Mark, off: nat, end: nat, m: Merge)
    requires k.off <= off <= end <= |file| && Merged(r, m0, file, k, off, m)
    requires Harmless(r, m0.seen, NewLines(file, k.off))
    ensures Merged(r, m0, file, k, end, Eat(r, m, file[off..end]))
  {
    hide Relayed, Eat, Split, Harmless, Consumed;
    var got, chunk := Got(file, k, off), file[off..end];
    GotMore(file, k, off, end);
    GotMore(file, k, end, |file|);
    assert file[end..] == file[end..|file|] && file[k.off..] == file[k.off..|file|];
    HarmlessText(r, m0.seen, got + chunk, file[end..]);
    SplitMore(got, chunk);
    EatSplits(r, m0, Split(got).lines, m, Split(got).tail, chunk);
  }

  lemma GotMore(file: bytes, k: Mark, off: nat, end: nat)
    requires k.off <= off <= end <= |file|
    ensures Got(file, k, off) + file[off..end] == Got(file, k, end)
  {
    hide Split;
    SliceJoin(file, k.off, off, end);
  }

  /** Where a finished tick stands: all finished lines are behind the mark. */
  predicate Settled(file: bytes, k: Mark) {
    && MarkOk(file, k) && Split(file[..k.off]).lines == Split(file).lines
    && k.off == if k.skipping then |file| else |file| - |Split(file).tail|
  }

  lemma Finished(r: Rules, m0: Merge, file: bytes, k: Mark, m: Merge)
    requires MarkOk(file, k) && Merged(r, m0, file, k, |file|, m)
    ensures |m.partial| <= |file| && Settled(file, Mark(|file| - |m.partial|, m.skipping))
    ensures Relayed(r, m0, NewLines(file, k.off), m)
  {
    hide Relayed, Split;
    assert file[k.off..] == file[k.off..|file|] && file[..|file|] == file;
    NewLinesAre(file, k.off);
    SplitCut(file);
  }
}
