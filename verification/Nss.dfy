/** keylog.Valid: the NSS key log line test, on ASCII white space, and what it does to the merge. */
module Nss {
  import opened Bytes
  import opened Keylog

  function Ascii(s: string): (b: bytes)
    ensures |b| == |s| && forall i :: 0 <= i < |s| ==> b[i] == s[i] as int % 256
  {
    seq(|s|, i requires 0 <= i < |s| => s[i] as int % 256)
  }

  predicate Space(b: byte) { b == SPACE || 9 <= b <= 13 }

  function TrimRight(b: bytes): bytes {
    if b != [] && Space(b[|b| - 1]) then TrimRight(b[..|b| - 1]) else b
  }

  function TrimLeft(b: bytes): bytes {
    if b != [] && Space(b[0]) then TrimLeft(b[1..]) else b
  }

  /** bytes.TrimSpace. */
  function Trim(b: bytes): bytes { TrimLeft(TrimRight(b)) }

  /** The length of the run of non-blanks b begins with. */
  function Token(b: bytes): (n: nat)
    ensures n <= |b| && (b != [] && !Space(b[0]) ==> n > 0)
  {
    if b == [] || Space(b[0]) then 0 else 1 + Token(b[1..])
  }

  /** bytes.Fields. */
  function Fields(b: bytes): seq<bytes>
    decreases |b|
  {
    if b == [] then []
    else if Space(b[0]) then Fields(b[1..])
    else [b[..Token(b)]] + Fields(b[Token(b)..])
  }

  predicate HexDigit(c: byte) { 48 <= c <= 57 || 97 <= c <= 102 || 65 <= c <= 70 }

  predicate IsHex(b: bytes) {
    b != [] && forall i :: 0 <= i < |b| ==> HexDigit(b[i])
  }

  function Labels(): set<bytes> {
    {Ascii("CLIENT_RANDOM"), Ascii("CLIENT_EARLY_TRAFFIC_SECRET"), Ascii("CLIENT_HANDSHAKE_TRAFFIC_SECRET"),
     Ascii("SERVER_HANDSHAKE_TRAFFIC_SECRET"), Ascii("CLIENT_TRAFFIC_SECRET_0"), Ascii("SERVER_TRAFFIC_SECRET_0"),
     Ascii("EARLY_EXPORTER_SECRET"), Ascii("EXPORTER_SECRET")}
  }

  /** A known label, a client random and a secret in hex, measured after trimming. */
  predicate Valid(line: bytes) {
    var l := Trim(line);
    var fields := Fields(l);
    && 0 < |l| <= MAX_LINE_LEN && |fields| == 3 && fields[0] in Labels()
    && IsHex(fields[1]) && |fields[1]| <= 64 && IsHex(fields[2]) && |fields[2]| <= 96
  }

  const NSS := Rules(Valid, Trim)

  /** Trailing blanks change nothing. */
  lemma TrailingBlank(line: bytes)
    ensures Trim(line + [SPACE]) == Trim(line) && (Valid(line + [SPACE]) <==> Valid(line))
  {
    assert (line + [SPACE])[..|line|] == line;
  }

  /** n blanks. */
  function Blanks(n: nat): (b: bytes)
    ensures |b| == n && Plain(b)
  {
    seq(n, _ => SPACE)
  }

  lemma {:induction false} Padded(line: bytes, n: nat)
    ensures Valid(line + Blanks(n)) <==> Valid(line)
    ensures Trim(line + Blanks(n)) == Trim(line)
  {
    hide Valid, Trim;
    if n == 0 {
      assert line + Blanks(0) == line;
    } else {
      Padded(line, n - 1);
      assert line + Blanks(n) == line + Blanks(n - 1) + [SPACE];
      TrailingBlank(line + Blanks(n - 1));
    }
  }

  // ---- a line the test accepts ----

  predicate NoBlank(b: bytes) {
    b != [] && forall i :: 0 <= i < |b| ==> !Space(b[i])
  }

  lemma {:induction false} TokenOf(t: bytes, rest: bytes)
    requires forall i :: 0 <= i < |t| ==> !Space(t[i])
    requires rest == [] || Space(rest[0])
    ensures Token(t + rest) == |t|
  {
    if t == [] {
      assert t + rest == rest;
    } else {
      assert (t + rest)[1..] == t[1..] + rest;
      TokenOf(t[1..], rest);
    }
  }

  lemma FieldsOf(t: bytes, rest: bytes)
    requires NoBlank(t) && (rest == [] || Space(rest[0]))
    ensures Fields(t + rest) == [t] + Fields(rest)
  {
    hide Token;
    TokenOf(t, rest);
    assert (t + rest)[..|t|] == t && (t + rest)[|t|..] == rest;
  }

  lemma NoTrim(b: bytes)
    requires b != [] && !Space(b[0]) && !Space(b[|b| - 1])
    ensures Trim(b) == b
  {
  }

  /** "CLIENT_RANDOM 0 0" */
  function Sample(): bytes {
    Ascii("CLIENT_RANDOM") + ([SPACE] + (Ascii("0") + ([SPACE] + Ascii("0"))))
  }

  /** The test on a line of three words: a known label, at most 64 hex digits, at most 96. */
  lemma KeyLineIff(tag: bytes, random: bytes, secret: bytes)
    requires NoBlank(tag) && NoBlank(random) && NoBlank(secret)
    ensures Valid(tag + ([SPACE] + (random + ([SPACE] + secret)))) <==>
              tag in Labels() && IsHex(random) && |random| <= 64 && IsHex(secret) && |secret| <= 96
  {
    hide Fields, Trim, NoBlank, IsHex;
    var tail := [SPACE] + secret;
    var line := tag + ([SPACE] + (random + tail));
    WordEnds(tag);
    WordEnds(secret);
    FieldsOf(secret, []);
    assert secret + [] == secret;
    AfterBlank(secret);
    FieldsOf(random, tail);
    AfterBlank(random + tail);
    FieldsOf(tag, [SPACE] + (random + tail));
    NoFields();
    NoTrim(line);
    assert Fields(line) == [tag, random, secret];
    assert tag in Labels() ==> |tag| <= 31;
  }

  lemma WordEnds(b: bytes)
    requires NoBlank(b)
    ensures b != [] && !Space(b[0]) && !Space(b[|b| - 1])
  {
  }

  /** Trimming takes the blanks at both ends, and nothing else. */
  lemma {:induction false} TrimIs(b: bytes) returns (i: nat, j: nat)
    ensures i <= j <= |b| && Trim(b) == b[i..j]
    ensures forall k :: 0 <= k < i || j <= k < |b| ==> Space(b[k])
    ensures Trim(b) != [] ==> !Space(Trim(b)[0]) && !Space(Trim(b)[|Trim(b)| - 1])
    decreases |b|
  {
    i, j := 0, |b|;
    assert b[..|b|] == b;
    while j > 0 && Space(b[j - 1])
      invariant 0 <= j <= |b| && TrimRight(b) == TrimRight(b[..j])
      invariant forall k :: j <= k < |b| ==> Space(b[k])
    {
      assert b[..j][..j - 1] == b[..j - 1];
      j := j - 1;
    }
    while i < j && Space(b[i])
      invariant 0 <= i <= j && TrimRight(b) == b[..j] && Trim(b) == TrimLeft(b[i..j])
      invariant forall k :: 0 <= k < i ==> Space(b[k])
      invariant j > 0 ==> !Space(b[j - 1])
    {
      assert b[i..j][1..] == b[i + 1..j];
      i := i + 1;
    }
  }

  lemma SampleIsValid()
    ensures Valid(Sample()) && Plain(Sample()) && |Sample()| == 17
  {
    hide Valid, Labels;
    var tag, zero := Ascii("CLIENT_RANDOM"), Ascii("0");
    LabelIsPlain();
    assert zero == [48];
    assert tag in Labels() by { IsLabel(); }
    KeyLineIff(tag, zero, zero);
  }

  lemma IsLabel()
    ensures Ascii("CLIENT_RANDOM") in Labels()
  {
  }

  lemma LabelIsPlain()
    ensures NoBlank(Ascii("CLIENT_RANDOM")) && Plain(Ascii("CLIENT_RANDOM"))
  {
    assert Ascii("CLIENT_RANDOM") == [67, 76, 73, 69, 78, 84, 95, 82, 65, 78, 68, 79, 77];
  }

  lemma AfterBlank(b: bytes)
    ensures Fields([SPACE] + b) == Fields(b)
  {
    assert ([SPACE] + b)[1..] == b;
  }

  lemma NoFields()
    ensures Fields([]) == []
  {
  }

  // ---- what it does to the merge ----

  /** The code's own test accepts a line over 256 bytes: a short key and 300 blanks. */
  lemma LongLineIsValid() returns (l: bytes)
    ensures l == Sample() + Blanks(300) && Plain(l) && |l| > MAX_LINE_LEN && Valid(l)
  {
    hide Valid, Sample, Plain;
    SampleIsValid();
    Padded(Sample(), 300);
    l := Sample() + Blanks(300);
    PlainConcat(Sample(), Blanks(300));
  }

  /**
   So the merge of a real key log can depend on how it is read: of this one-line file the
   relay gets the key when it comes in one read, and nothing when the newline comes apart.
   */
  lemma MergeDependsOnReads() returns (l: bytes)
    ensures Plain(l) && Valid(l)
    ensures Fresh(NSS, Split(Flat([l, [NEWLINE]])).lines, {}) == [Trim(l)]
    ensures EatAll(NSS, Empty(), [l, [NEWLINE]]).relay == []
    ensures !ChunkFree(NSS, Flat([l, [NEWLINE]]))
  {
    hide Valid, Trim, Plain, Split, EatAll, Fresh, Flat;
    l := LongLineIsValid();
    CutLongLine(NSS, l);
  }
}
