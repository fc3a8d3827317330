/** Bytes and the fixed-width integer layouts the file and wire formats use. */
module Bytes {
  type byte = x: int | 0 <= x < 256
  type bytes = seq<byte>

  const TWO16 := 0x1_0000
  const TWO32 := 0x1_0000_0000
  const TWO64 := 0x1_0000_0000_0000_0000

  type u16 = x: int | 0 <= x < TWO16
  type u32 = x: int | 0 <= x < TWO32
  type u64 = x: int | 0 <= x < TWO64

  datatype Option<+T> = None | Some(value: T)

  function Min(a: nat, b: nat): nat { if a < b then a else b }

  function Max(a: nat, b: nat): nat { if a > b then a else b }

  function Pow256(k: nat): (p: nat)
    ensures p > 0
  {
    if k == 0 then 1 else 256 * Pow256(k - 1)
  }

  lemma Pow256Widths()
    ensures Pow256(2) == TWO16 && Pow256(4) == TWO32 && Pow256(8) == TWO64
  {
    assert Pow256(2) == 256 * Pow256(1);
    assert Pow256(4) == 256 * (256 * Pow256(2));
    assert Pow256(6) == 256 * (256 * Pow256(4));
    assert Pow256(8) == 256 * (256 * Pow256(6));
  }

  /** The k low-order bytes of n, least significant first. */
  function LE(n: nat, k: nat): (b: bytes)
    ensures |b| == k
  {
    if k == 0 then [] else [n % 256] + LE(n / 256, k - 1)
  }

  function FromLE(b: bytes): nat {
    if b == [] then 0 else b[0] + 256 * FromLE(b[1..])
  }

  /** The k low-order bytes of n, most significant first. */
  function BE(n: nat, k: nat): (b: bytes)
    ensures |b| == k
  {
    if k == 0 then [] else BE(n / 256, k - 1) + [n % 256]
  }

  function FromBE(b: bytes): nat {
    if b == [] then 0 else 256 * FromBE(b[..|b| - 1]) + b[|b| - 1]
  }

  lemma {:induction false} LERoundTrip(n: nat, k: nat)
    requires n < Pow256(k)
    ensures FromLE(LE(n, k)) == n
  {
    if k > 0 {
      LERoundTrip(n / 256, k - 1);
      assert LE(n, k)[1..] == LE(n / 256, k - 1);
    }
  }

  lemma {:induction false} BERoundTrip(n: nat, k: nat)
    requires n < Pow256(k)
    ensures FromBE(BE(n, k)) == n
  {
    if k > 0 {
      BERoundTrip(n / 256, k - 1);
      assert BE(n, k)[..k - 1] == BE(n / 256, k - 1);
    }
  }

  lemma Digit(d: byte, rest: nat)
    ensures (d + 256 * rest) % 256 == d && (d + 256 * rest) / 256 == rest
  {
  }

  lemma {:induction false} FromLERoundTrip(b: bytes)
    ensures FromLE(b) < Pow256(|b|)
    ensures LE(FromLE(b), |b|) == b
  {
    if b != [] {
      FromLERoundTrip(b[1..]);
      Digit(b[0], FromLE(b[1..]));
      assert b == [b[0]] + b[1..];
    }
  }

  lemma {:induction false} FromBEBound(b: bytes)
    ensures FromBE(b) < Pow256(|b|)
  {
    if b != [] {
      FromBEBound(b[..|b| - 1]);
    }
  }

  lemma {:induction false} FromBERoundTrip(b: bytes)
    ensures FromBE(b) < Pow256(|b|)
    ensures BE(FromBE(b), |b|) == b
  {
    if b != [] {
      var n := |b| - 1;
      FromBERoundTrip(b[..n]);
      Digit(b[n], FromBE(b[..n]));
      assert b == b[..n] + [b[n]];
    }
  }

  /** The bytes themselves, lowest first. */
  lemma LEBytes(n: u32)
    ensures LE(n, 4) == [n % 256, n / 256 % 256, n / 0x1_0000 % 256, n / 0x100_0000]
  {
    assert LE(n, 4) == [n % 256] + LE(n / 256, 3);
    assert LE(n / 256, 3) == [n / 256 % 256] + LE(n / 256 / 256, 2);
    assert LE(n / 256 / 256, 2) == [n / 256 / 256 % 256] + LE(n / 256 / 256 / 256, 1);
    assert LE(n / 256 / 256 / 256, 1) == [n / 256 / 256 / 256 % 256] + [];
  }

  /** n without its i lowest bytes. */
  function Shift(n: nat, i: nat): nat {
    if i == 0 then n else Shift(n / 256, i - 1)
  }

  /** Byte i of the little-endian layout is digit i; of the big-endian one, digit i from the other end. */
  lemma {:induction false} ByteAt(n: nat, k: nat, i: nat)
    requires i < k
    ensures LE(n, k)[i] == Shift(n, i) % 256 && BE(n, k)[k - 1 - i] == Shift(n, i) % 256
  {
    if i > 0 {
      ByteAt(n / 256, k - 1, i - 1);
      assert LE(n, k)[1..] == LE(n / 256, k - 1) && BE(n, k)[..k - 1] == BE(n / 256, k - 1);
    }
  }

  /** A 16-bit number goes out high byte first. */
  lemma BEBytes(h: u16)
    ensures BE(h, 2) == [h / 256, h % 256]
  {
    assert BE(h, 2) == BE(h / 256, 1) + [h % 256] && BE(h / 256, 1) == [] + [h / 256 % 256];
  }

  function Get32LE(b: bytes): u32
    requires |b| == 4
  {
    FromLERoundTrip(b);
    Pow256Widths();
    FromLE(b)
  }

  function Get16BE(b: bytes): u16
    requires |b| == 2
  {
    FromBEBound(b);
    Pow256Widths();
    FromBE(b)
  }

  function Get32BE(b: bytes): u32
    requires |b| == 4
  {
    FromBEBound(b);
    Pow256Widths();
    FromBE(b)
  }

  function Get64BE(b: bytes): u64
    requires |b| == 8
  {
    FromBEBound(b);
    Pow256Widths();
    FromBE(b)
  }

  lemma Get32LEOfLE(n: u32)
    ensures Get32LE(LE(n, 4)) == n
  {
    Pow256Widths();
    LERoundTrip(n, 4);
  }

  lemma LEOfGet32LE(b: bytes)
    requires |b| == 4
    ensures LE(Get32LE(b), 4) == b
  {
    FromLERoundTrip(b);
  }

  lemma GetBEOfBE(h: u16, w: u32, d: u64)
    ensures Get16BE(BE(h, 2)) == h
    ensures Get32BE(BE(w, 4)) == w
    ensures Get64BE(BE(d, 8)) == d
  {
    Pow256Widths();
    BERoundTrip(h, 2);
    BERoundTrip(w, 4);
    BERoundTrip(d, 8);
  }

  lemma BEOfGet16BE(b: bytes)
    requires |b| == 2
    ensures BE(Get16BE(b), 2) == b
  {
    FromBERoundTrip(b);
  }

  lemma BEOfGet32BE(b: bytes)
    requires |b| == 4
    ensures BE(Get32BE(b), 4) == b
  {
    FromBERoundTrip(b);
  }

  lemma BEOfGet64BE(b: bytes)
    requires |b| == 8
    ensures BE(Get64BE(b), 8) == b
  {
    FromBERoundTrip(b);
  }

  /** A field of a window is the same field of the file the window was cut from. */
  lemma Window(file: bytes, off: nat, len: nat, i: nat, j: nat)
    requires off + len <= |file| && i <= j <= len
    ensures file[off..off + len][i..j] == file[off..][i..j]
  {
    var w, rest := file[off..off + len], file[off..];
    assert forall k :: i <= k < j ==> w[k] == file[off + k] && rest[k] == file[off + k];
  }

  lemma SliceOfPrefix<T>(s: seq<T>, d: nat, a: nat, b: nat)
    requires a <= b <= d <= |s|
    ensures s[..d][a..b] == s[a..b]
  {
  }

  lemma FrontOfSlice<T>(s: seq<T>, a: nat, b: nat, k: nat)
    requires a <= b <= |s| && k <= b - a
    ensures s[a..b][..k] == s[a..a + k]
  {
  }

  /** Two adjacent slices are one. */
  lemma SliceJoin<T>(s: seq<T>, a: nat, b: nat, c: nat)
    requires a <= b <= c <= |s|
    ensures s[a..b] + s[b..c] == s[a..c]
  {
  }

  /** Sequences with a common front agree on every slice of it. */
  lemma SameSlice<T>(s: seq<T>, t: seq<T>, m: nat, a: nat, b: nat)
    requires a <= b <= m <= |s| && m <= |t| && s[..m] == t[..m]
    ensures s[a..b] == t[a..b]
  {
    SliceOfPrefix(s, m, a, b);
    SliceOfPrefix(t, m, a, b);
  }
}
