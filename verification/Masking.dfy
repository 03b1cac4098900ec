/** mask.go: XOR masking of frame payloads, section 5.3 of RFC 6455. */
module Masking {
  import opened Bytes

  /** The four octets of a frame's masking key. */
  datatype Key = Key(k0: byte, k1: byte, k2: byte, k3: byte) {
    function At(i: nat): byte {
      if i % 4 == 0 then k0 else if i % 4 == 1 then k1 else if i % 4 == 2 then k2 else k3
    }

    function Octets(): seq<byte> {
      [k0, k1, k2, k3]
    }
  }

  /** Octet i of the data is XORed with octet (pos + i) mod 4 of the key. */
  function Mask(key: Key, pos: nat, s: seq<byte>): (r: seq<byte>)
    ensures |r| == |s|
  {
    seq(|s|, i requires 0 <= i < |s| => Xor(s[i], key.At(pos + i)))
  }

  lemma MaskCancels(key: Key, pos: nat, s: seq<byte>)
    ensures Mask(key, pos, Mask(key, pos, s)) == s
  {
    forall i | 0 <= i < |s|
      ensures Mask(key, pos, Mask(key, pos, s))[i] == s[i]
    {
      XorCancels(s[i], key.At(pos + i));
    }
  }

  /** A payload may be masked chunk by chunk when the position is carried over. */
  lemma MaskConcat(key: Key, pos: nat, s: seq<byte>, t: seq<byte>)
    ensures Mask(key, pos, s + t) == Mask(key, pos, s) + Mask(key, (pos + |s|) % 4, t)
  {
    var r := Mask(key, pos, s) + Mask(key, (pos + |s|) % 4, t);
    forall i | 0 <= i < |r|
      ensures Mask(key, pos, s + t)[i] == r[i]
    {
      if i >= |s| {
        assert (pos + i) % 4 == ((pos + |s|) % 4 + (i - |s|)) % 4;
      }
    }
  }

  /** XOR of two octet strings of equal length. */
  function XorSeq(s: seq<byte>, t: seq<byte>): (r: seq<byte>)
    requires |s| == |t|
    ensures |r| == |s|
  {
    seq(|s|, i requires 0 <= i < |s| => Xor(s[i], t[i]))
  }

  function Shifted(n: nat, k: nat): nat {
    if k == 0 then n else 2 * Shifted(n, k - 1)
  }

  /** XOR acts on the low k bits and on the bits above them separately. */
  lemma {:induction false} XorBitsSplit(a: nat, A: nat, b: nat, B: nat, k: nat, n: nat)
    requires a < Pow2(k) && b < Pow2(k)
    ensures XorBits(a + Shifted(A, k), b + Shifted(B, k), k + n) == XorBits(a, b, k) + Shifted(XorBits(A, B, n), k)
    decreases k
  {
    if k > 0 {
      var x, y := Shifted(A, k - 1), Shifted(B, k - 1);
      Half(a, x);
      Half(b, y);
      XorBitsSplit(a / 2, A, b / 2, B, k - 1, n);
    }
  }

  /** XOR of two machine words is XOR of their octets. */
  lemma {:induction false} XorWord(s: seq<byte>, t: seq<byte>)
    requires |s| == |t|
    ensures XorBits(FromLE(s), FromLE(t), 8 * |s|) == FromLE(XorSeq(s, t))
    decreases |s|
  {
    if |s| > 0 {
      XorWord(s[1..], t[1..]);
      assert XorSeq(s, t)[1..] == XorSeq(s[1..], t[1..]);
      assert XorSeq(s, t)[0] == Xor(s[0], t[0]) && 8 * |s| == 8 + 8 * (|s| - 1);
      XorFirstOctet(s[0], FromLE(s[1..]), t[0], FromLE(t[1..]), 8 * (|s| - 1));
    }
  }

  lemma XorFirstOctet(a: byte, A: nat, b: byte, B: nat, n: nat)
    ensures XorBits(a + 256 * A, b + 256 * B, 8 + n) == Xor(a, b) + 256 * XorBits(A, B, n)
  {
    assert Pow2(8) == 256;
    XorBitsSplit(a, A, b, B, 8, n);
    ShiftedOctet(A);
    ShiftedOctet(B);
    ShiftedOctet(XorBits(A, B, n));
  }

  lemma ShiftedOctet(n: nat)
    ensures Shifted(n, 8) == 256 * n
  {
    assert Shifted(n, 1) == 2 * n;
    assert Shifted(n, 2) == 4 * n;
    assert Shifted(n, 3) == 8 * n;
    assert Shifted(n, 4) == 16 * n;
    assert Shifted(n, 5) == 32 * n;
    assert Shifted(n, 6) == 64 * n;
    assert Shifted(n, 7) == 128 * n;
  }

  /** t is s with the slice s[lo..hi] masked from key position pos on, and nothing else changed. */
  ghost predicate MaskedSlice(key: Key, pos: nat, s: seq<byte>, t: seq<byte>, lo: nat, hi: nat)
    requires lo <= hi <= |s|
  {
    && |t| == |s|
    && forall j :: 0 <= j < |s| ==> t[j] == if lo <= j < hi then Xor(s[j], key.At(pos + (j - lo))) else s[j]
  }

  lemma MaskedSliceJoin(key: Key, pos: nat, p: nat, s: seq<byte>, t: seq<byte>, u: seq<byte>,
                        lo: nat, mid: nat, hi: nat)
    requires lo <= mid <= hi <= |s| && p % 4 == (pos + (mid - lo)) % 4
    requires MaskedSlice(key, pos, s, t, lo, mid) && MaskedSlice(key, p, t, u, mid, hi)
    ensures MaskedSlice(key, pos, s, u, lo, hi)
  {
    forall j {:trigger s[j]} | mid <= j < hi
      ensures key.At(p + (j - mid)) == key.At(pos + (j - lo))
    {
      SameAt(key, p, pos + (mid - lo), j - mid);
    }
  }

  lemma SameAt(key: Key, p: nat, q: nat, d: nat)
    requires p % 4 == q % 4
    ensures key.At(p + d) == key.At(q + d)
  {
    assert (p + d) % 4 == (q + d) % 4;
  }

  lemma MaskedSliceIsMask(key: Key, pos: nat, s: seq<byte>, t: seq<byte>, lo: nat, hi: nat)
    requires lo <= hi <= |s| && MaskedSlice(key, pos, s, t, lo, hi)
    ensures t == s[..lo] + Mask(key, pos, s[lo..hi]) + s[hi..]
  {
  }

  method MaskBytewise(key: Key, pos: nat, a: array<byte>, lo: nat, hi: nat) returns (r: nat)
    requires lo <= hi <= a.Length
    modifies a
    ensures MaskedSlice(key, pos, old(a[..]), a[..], lo, hi)
    ensures r == pos + (hi - lo)
  {
    r := pos;
    for i := lo to hi
      invariant r == pos + (i - lo)
      invariant forall j :: 0 <= j < a.Length && !(lo <= j < i) ==> a[j] == old(a[j])
      invariant forall j :: lo <= j < i ==> a[j] == Xor(old(a[j]), key.At(pos + (j - lo)))
    {
      a[i] := Xor(a[i], key.At(r));
      r := r + 1;
    }
  }

  /** The key laid out as one machine word, starting at key position pos. */
  function KeyWord(key: Key, pos: nat, wordSize: nat): (k: seq<byte>)
    ensures |k| == wordSize && forall i :: 0 <= i < wordSize ==> k[i] == key.At(pos + i)
  {
    seq<byte>(wordSize, i requires 0 <= i < wordSize => key.At(pos + i))
  }

  /** One word of the word loop: loaded, XORed with the word of the key and stored. */
  method MaskWord(wordSize: nat, k: seq<byte>, a: array<byte>, i: nat)
    requires i + wordSize <= a.Length && |k| == wordSize
    modifies a
    ensures forall j :: 0 <= j < a.Length && !(i <= j < i + wordSize) ==> a[j] == old(a[j])
    ensures forall j :: i <= j < i + wordSize ==> a[j] == Xor(old(a[j]), k[j - i])
  {
    ghost var before := a[i..i + wordSize];
    XorWord(before, k);
    LERoundTrip(XorSeq(before, k));
    var word := ToLE(XorBits(FromLE(a[i..i + wordSize]), FromLE(k), 8 * wordSize), wordSize);
    assert word == XorSeq(before, k);
    forall j | 0 <= j < wordSize {
      a[i + j] := word[j];
    }
    forall j | i <= j < i + wordSize
      ensures a[j] == Xor(old(a[j]), k[j - i])
    {
      assert a[i + (j - i)] == word[j - i] && before[j - i] == old(a[j]);
    }
  }

  method MaskWords(wordSize: nat, key: Key, pos: nat, a: array<byte>, lo: nat, hi: nat)
    requires wordSize > 0 && wordSize % 4 == 0
    requires lo <= hi <= a.Length && WholeWords(hi - lo, wordSize)
    modifies a
    ensures MaskedSlice(key, pos, old(a[..]), a[..], lo, hi)
  {
    var k := KeyWord(key, pos, wordSize);
    var i := lo;
    while i < hi
      invariant lo <= i <= hi
      invariant WholeWords(hi - i, wordSize) && WholeWords(i - lo, wordSize)
      invariant MaskedSlice(key, pos, old(a[..]), a[..], lo, i)
    {
      ghost var before := a[..];
      MaskWord(wordSize, k, a, i);
      AddWords(pos, i - lo, wordSize);
      MaskedSliceJoin(key, pos, pos, old(a[..]), before, a[..], lo, i, i + wordSize);
      i := i + wordSize;
    }
  }

  /** d octets are a whole number of words of w octets. */
  predicate WholeWords(d: nat, w: nat)
    requires w > 0
  {
    d == 0 || (d >= w && WholeWords(d - w, w))
  }

  lemma {:induction false} WordMultiple(q: nat, w: nat)
    requires w > 0
    ensures WholeWords(q * w, w)
  {
    if q > 0 {
      WordMultiple(q - 1, w);
      assert q * w == (q - 1) * w + w;
    }
  }

  /** The whole words that fit in d octets. */
  function WordOctets(d: nat, w: nat): (n: nat)
    requires w > 0
    ensures n <= d && WholeWords(n, w)
  {
    WordMultiple(d / w, w);
    d / w * w
  }

  lemma {:induction false} AddWords(p: nat, d: nat, w: nat)
    requires w > 0 && w % 4 == 0 && WholeWords(d, w)
    ensures (p + d) % 4 == p % 4
    decreases d
  {
    if d > 0 {
      AddWords(p, d - w, w);
      assert (p + (d - w) + w) % 4 == (p + (d - w)) % 4;
    }
  }

  /** The number of octets from addr to the next word boundary. */
  function ToBoundary(addr: nat, w: nat): (n: nat)
    requires w > 0
    ensures n < w
  {
    if addr % w == 0 then 0 else w - addr % w
  }

  /** maskBytes. `addr` is the address of the first octet of the slice a[lo..hi]. */
  method MaskBytes(wordSize: nat, addr: nat, key: Key, pos: nat, a: array<byte>, lo: nat, hi: nat)
    returns (r: nat)
    requires wordSize > 0 && wordSize % 4 == 0
    requires lo <= hi <= a.Length
    modifies a
    ensures MaskedSlice(key, pos, old(a[..]), a[..], lo, hi)
    ensures r == (pos + (hi - lo)) % 4
  {
    if hi - lo < 2 * wordSize {
      r := MaskBytewise(key, pos, a, lo, hi);
      return r % 4;
    }
    var b := lo + ToBoundary(addr, wordSize);
    var p := MaskBytewise(key, pos, a, lo, b);
    ghost var s1 := a[..];
    var e := b + WordOctets(hi - b, wordSize);
    MaskWords(wordSize, key, p, a, b, e);
    ghost var s2 := a[..];
    // The position is not advanced by the word loop, whose stride is a multiple of four.
    r := MaskBytewise(key, p, a, e, hi);
    AddWords(p, e - b, wordSize);
    AddWords(r, e - b, wordSize);
    MaskedSliceJoin(key, pos, p, old(a[..]), s1, s2, lo, b, e);
    MaskedSliceJoin(key, pos, p, old(a[..]), s2, a[..], lo, e, hi);
    r := r % 4;
  }
}
