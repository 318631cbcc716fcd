/** The output stage of md5crypt: the digest is permuted, packed six bits to a letter
    and written after the magic string and the salt into a fixed buffer
    (apps/passwd.c:19-27, 247-268, 310-345). Bytes are bit vectors here, so the masks
    and shifts are the source's own. */
module Md5Crypt {

  const DIGEST := 16
  const LETTERS := 22
  const OUT_BUF := 6 + 9 + 24 + 2
  const DOLLAR: bv8 := 0x24

  // ----- the 64 letters

  /** cov_2char[v]. */
  function Letter(v: bv8): bv8
    requires v < 64
  {
    if v < 12 then 0x2E + v else if v < 38 then 0x41 + (v - 12) else 0x61 + (v - 38)
  }

  predicate IsLetter(c: bv8)
  {
    0x2E <= c <= 0x39 || 0x41 <= c <= 0x5A || 0x61 <= c <= 0x7A
  }

  function LetterValue(c: bv8): bv8
  {
    if c <= 0x39 then c - 0x2E else if c <= 0x5A then c - 0x41 + 12 else c - 0x61 + 38
  }

  /** The 64 letters are given out in the order of their codes. */
  lemma LettersInOrder(v: bv8, w: bv8)
    requires v < w < 64
    ensures IsLetter(Letter(v)) && IsLetter(Letter(w)) && Letter(v) < Letter(w)
  {
  }

  /** The table is a bijection between the six-bit numbers and the letters. */
  lemma LettersAreSixBits(v: bv8, c: bv8)
    ensures v < 64 ==> IsLetter(Letter(v)) && LetterValue(Letter(v)) == v
    ensures IsLetter(c) ==> LetterValue(c) < 64 && Letter(LetterValue(c)) == c
  {
  }

  // ----- the permutation

  /** Where output byte k comes from. */
  function Source(k: nat): (j: nat)
    requires k < DIGEST
    ensures j < DIGEST
  {
    if k == 14 then 5 else if k == 15 then 11 else Stepped(k)
  }

  /** The stepping of the source index. */
  function Stepped(k: nat): (j: nat)
    ensures j < 17 && (k < 14 ==> j < DIGEST)
  {
    (6 * k) % 17
  }

  lemma StepsBySix(k: nat)
    ensures Stepped(k + 1) == (Stepped(k) + 6) % 17
  {
    var q, r := 6 * k / 17, Stepped(k) + 6;
    assert 6 * (k + 1) == 17 * q + r;
    if r < 17 {
      Remainder(6 * (k + 1), q, r);
      Remainder(r, 0, r);
    } else {
      Remainder(6 * (k + 1), q + 1, r - 17);
      Remainder(r, 1, r - 17);
    }
  }

  lemma Remainder(n: nat, q: int, r: nat)
    requires n == 17 * q + r && r < 17
    ensures n % 17 == r
  {
  }

  /** Where digest byte j goes: 3 is the inverse of 6 modulo 17. */
  function Target(j: nat): (k: nat)
    requires j < DIGEST
    ensures k < DIGEST
  {
    if j == 5 then 14 else if j == 11 then 15 else (3 * j) % 17
  }

  /** The places that the bytes are taken from. */
  lemma SourceTable(k: nat)
    requires k < 16
    ensures Source(k) == [0, 6, 12, 1, 7, 13, 2, 8, 14, 3, 9, 15, 4, 10, 5, 11][k]
  {
  }

  /** The stepping by 6 modulo 17 and the two fixed slots together take every byte of
      the digest exactly once. */
  lemma SourceIsAPermutation(k: nat)
    requires k < DIGEST
    ensures Target(Source(k)) == k && Source(Target(k)) == k
  {
    if k == 5 {
      assert Source(5) == 13 && Target(13) == 5;
    } else if k == 11 {
      assert Source(11) == 15 && Target(15) == 11;
    } else if k == 14 {
      assert Target(14) == 8 && Source(8) == 14;
    } else if k < 14 {
      ModularInverse(k);
    }
  }

  /** 3 and 6 are inverse to each other modulo 17. */
  lemma ModularInverse(k: nat)
    requires k < 17
    ensures (3 * ((6 * k) % 17)) % 17 == k && (6 * ((3 * k) % 17)) % 17 == k
  {
    Remainder(3 * ((6 * k) % 17), k - 3 * (6 * k / 17), k);
    Remainder(6 * ((3 * k) % 17), k - 6 * (3 * k / 17), k);
  }

  function Permuted(d: seq<bv8>): (p: seq<bv8>)
    requires |d| == DIGEST
    ensures |p| == DIGEST && forall k :: 0 <= k < DIGEST ==> p[k] == d[Source(k)]
  {
    seq(DIGEST, k requires 0 <= k < DIGEST => d[Source(k)])
  }

  function Unpermuted(p: seq<bv8>): (d: seq<bv8>)
    requires |p| == DIGEST
    ensures |d| == DIGEST && forall j :: 0 <= j < DIGEST ==> d[j] == p[Target(j)]
  {
    seq(DIGEST, j requires 0 <= j < DIGEST => p[Target(j)])
  }

  lemma PermutationUndone(d: seq<bv8>)
    requires |d| == DIGEST
    ensures Unpermuted(Permuted(d)) == d && Permuted(Unpermuted(d)) == d
  {
    forall k: nat | k < DIGEST
      ensures Unpermuted(Permuted(d))[k] == d[k] && Permuted(Unpermuted(d))[k] == d[k]
    {
      SourceIsAPermutation(k);
    }
  }

  // ----- the packing

  predicate SixBits(v: seq<bv8>)
  {
    forall i :: 0 <= i < |v| ==> v[i] < 64
  }

  /** The four six-bit numbers of three bytes. */
  function Quad(b: seq<bv8>): (q: seq<bv8>)
    ensures |b| == 3 ==> |q| == 4
  {
    if |b| != 3 then []
    else [b[2] & 0x3f, ((b[1] & 0xf) << 2) | (b[2] >> 6), ((b[0] & 3) << 4) | (b[1] >> 4), b[0] >> 2]
  }

  /** The three bytes of four six-bit numbers. */
  function Triple(v: seq<bv8>): (t: seq<bv8>)
    ensures |v| == 4 ==> |t| == 3
  {
    if |v| != 4 then []
    else [(v[2] >> 4) | (v[3] << 2), (v[1] >> 2) | ((v[2] & 0xf) << 4), v[0] | ((v[1] & 3) << 6)]
  }

  lemma QuadUndone(b: seq<bv8>)
    requires |b| == 3
    ensures Triple(Quad(b)) == b && SixBits(Quad(b))
  {
    BytesOfBits(b[0], b[1], b[2]);
    QuadIsSixBits(b);
  }

  /** The four values are the base-64 digits of the three bytes read as one number, the
      least significant first. */
  lemma QuadIsANumber(b0: bv8, b1: bv8, b2: bv8)
    ensures var q := Quad([b0, b1, b2]);
            && SixBits(q)
            && (q[0] as bv32) | ((q[1] as bv32) << 6) | ((q[2] as bv32) << 12) | ((q[3] as bv32) << 18)
               == ((b0 as bv32) << 16) | ((b1 as bv32) << 8) | (b2 as bv32)
  {
  }

  lemma QuadIsSixBits(b: seq<bv8>)
    requires |b| == 3
    ensures SixBits(Quad(b))
  {
  }

  lemma TripleUndone(v: seq<bv8>)
    requires |v| == 4 && SixBits(v)
    ensures Quad(Triple(v)) == v
  {
    SixesOfBits(v[0], v[1], v[2], v[3]);
  }

  lemma BytesOfBits(b0: bv8, b1: bv8, b2: bv8)
    ensures ((((b0 & 3) << 4) | (b1 >> 4)) >> 4) | ((b0 >> 2) << 2) == b0
    ensures ((((b1 & 0xf) << 2) | (b2 >> 6)) >> 2) | (((((b0 & 3) << 4) | (b1 >> 4)) & 0xf) << 4) == b1
    ensures (b2 & 0x3f) | (((((b1 & 0xf) << 2) | (b2 >> 6)) & 3) << 6) == b2
  {
  }

  lemma SixesOfBits(v0: bv8, v1: bv8, v2: bv8, v3: bv8)
    requires v0 < 64 && v1 < 64 && v2 < 64 && v3 < 64
    ensures (v0 | ((v1 & 3) << 6)) & 0x3f == v0
    ensures ((((v1 >> 2) | ((v2 & 0xf) << 4)) & 0xf) << 2) | ((v0 | ((v1 & 3) << 6)) >> 6) == v1
    ensures ((((v2 >> 4) | (v3 << 2)) & 3) << 4) | (((v1 >> 2) | ((v2 & 0xf) << 4)) >> 4) == v2
    ensures ((v2 >> 4) | (v3 << 2)) >> 2 == v3
  {
  }

  /** A coding of three-byte blocks, one block after the other. */
  function Quads(quad: seq<bv8> -> seq<bv8>, p: seq<bv8>, g: nat): seq<bv8>
    requires |p| == 3 * g
  {
    if g == 0 then [] else Quads(quad, p[..3 * g - 3], g - 1) + quad(p[3 * g - 3..])
  }

  function Triples(triple: seq<bv8> -> seq<bv8>, v: seq<bv8>, g: nat): seq<bv8>
    requires |v| == 4 * g
  {
    if g == 0 then [] else Triples(triple, v[..4 * g - 4], g - 1) + triple(v[4 * g - 4..])
  }

  /** A block coding that can be undone on each block can be undone. */
  lemma {:induction false} QuadsUndone(quad: seq<bv8> -> seq<bv8>, triple: seq<bv8> -> seq<bv8>, p: seq<bv8>, g: nat)
    requires |p| == 3 * g
    requires forall b {:trigger quad(b)} :: |b| == 3 ==> |quad(b)| == 4 && SixBits(quad(b)) && triple(quad(b)) == b
    ensures |Quads(quad, p, g)| == 4 * g && SixBits(Quads(quad, p, g))
    ensures Triples(triple, Quads(quad, p, g), g) == p
  {
    if g > 0 {
      var front, last := p[..3 * g - 3], p[3 * g - 3..];
      QuadsUndone(quad, triple, front, g - 1);
      var v := Quads(quad, p, g);
      assert v[..4 * g - 4] == Quads(quad, front, g - 1) && v[4 * g - 4..] == quad(last);
      assert front + last == p;
    }
  }

  lemma {:induction false} TriplesUndone(quad: seq<bv8> -> seq<bv8>, triple: seq<bv8> -> seq<bv8>, v: seq<bv8>, g: nat)
    requires |v| == 4 * g && SixBits(v)
    requires forall b {:trigger triple(b)} :: |b| == 4 && SixBits(b) ==> |triple(b)| == 3 && quad(triple(b)) == b
    ensures |Triples(triple, v, g)| == 3 * g
    ensures Quads(quad, Triples(triple, v, g), g) == v
  {
    if g > 0 {
      var front, last := v[..4 * g - 4], v[4 * g - 4..];
      TriplesUndone(quad, triple, front, g - 1);
      var p := Triples(triple, v, g);
      assert p[..3 * g - 3] == Triples(triple, front, g - 1) && p[3 * g - 3..] == triple(last);
      assert front + last == v;
    }
  }

  lemma {:induction false} QuadsLength(quad: seq<bv8> -> seq<bv8>, p: seq<bv8>, n: nat)
    requires |p| == 3 * n
    requires forall b {:trigger quad(b)} :: |b| == 3 ==> |quad(b)| == 4
    ensures |Quads(quad, p, n)| == 4 * n
  {
    if n > 0 {
      QuadsLength(quad, p[..3 * n - 3], n - 1);
    }
  }

  lemma {:induction false} QuadsAt(quad: seq<bv8> -> seq<bv8>, p: seq<bv8>, g: nat, n: nat)
    requires g < n && |p| == 3 * n
    requires forall b {:trigger quad(b)} :: |b| == 3 ==> |quad(b)| == 4
    ensures |Quads(quad, p, n)| == 4 * n
    ensures Quads(quad, p, n)[4 * g..4 * g + 4] == quad(p[3 * g..3 * g + 3])
  {
    var front, last := p[..3 * n - 3], p[3 * n - 3..];
    QuadsLength(quad, front, n - 1);
    var a, b := Quads(quad, front, n - 1), quad(last);
    if g < n - 1 {
      QuadsAt(quad, front, g, n - 1);
      SliceOfFront(front, last, 3 * g, 3 * g + 3);
      SliceOfFront(a, b, 4 * g, 4 * g + 4);
      assert front + last == p;
    } else {
      assert p[3 * g..3 * g + 3] == last;
      assert (a + b)[4 * g..4 * g + 4] == b;
    }
  }

  lemma SliceOfFront(a: seq<bv8>, b: seq<bv8>, i: nat, j: nat)
    requires i <= j <= |a|
    ensures (a + b)[i..j] == a[i..j]
  {
  }

  predicate AllLetters(s: seq<bv8>)
  {
    forall i :: 0 <= i < |s| ==> IsLetter(s[i])
  }

  function Spelled(v: seq<bv8>): (s: seq<bv8>)
    requires SixBits(v)
    ensures |s| == |v| && forall i :: 0 <= i < |v| ==> s[i] == Letter(v[i])
  {
    seq(|v|, i requires 0 <= i < |v| => Letter(v[i]))
  }

  function Values(s: seq<bv8>): (v: seq<bv8>)
    ensures |v| == |s| && forall i :: 0 <= i < |s| ==> v[i] == LetterValue(s[i])
  {
    seq(|s|, i requires 0 <= i < |s| => LetterValue(s[i]))
  }

  lemma SpellingUndone(v: seq<bv8>, s: seq<bv8>)
    ensures SixBits(v) ==> AllLetters(Spelled(v)) && Values(Spelled(v)) == v
    ensures AllLetters(s) ==> SixBits(Values(s)) && Spelled(Values(s)) == s
  {
    forall i | 0 <= i < |v| && v[i] < 64
      ensures IsLetter(Letter(v[i])) && LetterValue(Letter(v[i])) == v[i]
    {
      LettersAreSixBits(v[i], 0);
    }
    forall i | 0 <= i < |s| && IsLetter(s[i])
      ensures LetterValue(s[i]) < 64 && Letter(LetterValue(s[i])) == s[i]
    {
      LettersAreSixBits(0, s[i]);
    }
  }

  /** The 22 six-bit numbers of a permuted digest. */
  function Sixes(p: seq<bv8>): (v: seq<bv8>)
    requires |p| == DIGEST
    ensures |v| == LETTERS && SixBits(v) && v[21] < 4
  {
    QuadsOfDigest(p[..15]);
    Quads(Quad, p[..15], 5) + LastTwo(p[15])
  }

  function LastTwo(b: bv8): (v: seq<bv8>)
    ensures |v| == 2 && SixBits(v) && v[1] < 4
  {
    [b & 0x3f, b >> 6]
  }

  function Bytes(v: seq<bv8>): (p: seq<bv8>)
    requires |v| == LETTERS && SixBits(v)
    ensures |p| == DIGEST
  {
    TriplesOfDigest(v[..20]);
    Triples(Triple, v[..20], 5) + [v[20] | (v[21] << 6)]
  }

  lemma QuadsOfDigest(p: seq<bv8>)
    requires |p| == 15
    ensures |Quads(Quad, p, 5)| == 20 && SixBits(Quads(Quad, p, 5))
    ensures Triples(Triple, Quads(Quad, p, 5), 5) == p
  {
    forall b: seq<bv8> | |b| == 3
      ensures |Quad(b)| == 4 && SixBits(Quad(b)) && Triple(Quad(b)) == b
    {
      QuadUndone(b);
    }
    QuadsUndone(Quad, Triple, p, 5);
  }

  lemma TriplesOfDigest(v: seq<bv8>)
    requires |v| == 20 && SixBits(v)
    ensures |Triples(Triple, v, 5)| == 15 && Quads(Quad, Triples(Triple, v, 5), 5) == v
  {
    forall b | |b| == 4 && SixBits(b)
      ensures |Triple(b)| == 3 && Quad(Triple(b)) == b
    {
      TripleUndone(b);
    }
    TriplesUndone(Quad, Triple, v, 5);
  }

  lemma SixesUndone(p: seq<bv8>)
    requires |p| == DIGEST
    ensures Bytes(Sixes(p)) == p
  {
    QuadsOfDigest(p[..15]);
    var v := Sixes(p);
    assert v[..20] == Quads(Quad, p[..15], 5);
    assert v[20] == LastTwo(p[15])[0] && v[21] == LastTwo(p[15])[1];
    assert v[20] | (v[21] << 6) == p[15];
    assert p[..15] + [p[15]] == p;
  }

  lemma BytesUndone(v: seq<bv8>)
    requires |v| == LETTERS && SixBits(v) && v[21] < 4
    ensures Sixes(Bytes(v)) == v
  {
    TriplesOfDigest(v[..20]);
    var p := Bytes(v);
    assert p[..15] == Triples(Triple, v[..20], 5);
    assert LastTwo(p[15]) == [v[20], v[21]];
    assert v[..20] + [v[20], v[21]] == v;
  }

  /** The letters of a permuted digest. */
  function Letters(p: seq<bv8>): (s: seq<bv8>)
    requires |p| == DIGEST
    ensures |s| == LETTERS && AllLetters(s)
  {
    SpellingUndone(Sixes(p), []);
    Spelled(Sixes(p))
  }

  /** The hash part of the output. */
  function Packed(d: seq<bv8>): (s: seq<bv8>)
    requires |d| == DIGEST
    ensures |s| == LETTERS && AllLetters(s)
  {
    Letters(Permuted(d))
  }

  function Unpacked(s: seq<bv8>): (d: seq<bv8>)
    requires |s| == LETTERS && AllLetters(s)
    ensures |d| == DIGEST
  {
    SpellingUndone([], s);
    Unpermuted(Bytes(Values(s)))
  }

  /** Packing loses nothing: the decoder recovers every digest from its 22 letters. */
  lemma PackingIsLossless(d: seq<bv8>)
    requires |d| == DIGEST
    ensures Unpacked(Packed(d)) == d
  {
    SixesUndone(Permuted(d));
    SpellingUndone(Sixes(Permuted(d)), []);
    PermutationUndone(d);
  }

  /** The outputs are exactly the strings of 22 letters whose last letter is one of
      the first four. */
  lemma PackingIsOnto(s: seq<bv8>)
    requires |s| == LETTERS && AllLetters(s)
    ensures (exists d :: |d| == DIGEST && Packed(d) == s) <==> LetterValue(s[21]) < 4
  {
    SpellingUndone([], s);
    if LetterValue(s[21]) < 4 {
      BytesUndone(Values(s));
      PermutationUndone(Bytes(Values(s)));
      assert Packed(Unpacked(s)) == s;
    }
    forall d | |d| == DIGEST && Packed(d) == s
      ensures LetterValue(s[21]) < 4
    {
      SixesUndone(Permuted(d));
      SpellingUndone(Sixes(Permuted(d)), []);
      assert Values(s)[21] == Sixes(Permuted(d))[21];
    }
  }

  // ----- C strings in a buffer

  predicate CString(s: seq<bv8>)
  {
    forall i :: 0 <= i < |s| ==> s[i] != 0
  }

  /** The buffer holds the C string s. */
  ghost predicate Holds(buf: array<bv8>, s: seq<bv8>)
    reads buf
  {
    CString(s) && |s| < buf.Length && buf[|s|] == 0 && forall i :: 0 <= i < |s| ==> buf[i] == s[i]
  }

  method StrLen(buf: array<bv8>, from: nat, ghost s: seq<bv8>) returns (n: nat)
    requires Holds(buf, s) && from <= |s|
    ensures n == |s| - from
  {
    n := 0;
    while buf[from + n] != 0
      invariant from + n <= |s|
      decreases |s| - n
    {
      n := n + 1;
    }
  }

  function Min(a: int, b: int): int
  {
    if a < b then a else b
  }

  /** strlcat with the size of the buffer: what does not fit is cut off. */
  method StrLCat(buf: array<bv8>, src: seq<bv8>, ghost s: seq<bv8>)
    requires Holds(buf, s) && CString(src)
    modifies buf
    ensures Holds(buf, s + src[..Min(|src|, buf.Length - 1 - |s|)])
  {
    var n := StrLen(buf, 0, s);
    var i := 0;
    while n + i + 1 < buf.Length && i < |src|
      invariant n + i < buf.Length && i <= |src|
      invariant forall k :: 0 <= k < n ==> buf[k] == s[k]
      invariant forall k :: 0 <= k < i ==> buf[n + k] == src[k]
    {
      buf[n + i] := src[i];
      i := i + 1;
    }
    buf[n + i] := 0;
    assert i == Min(|src|, buf.Length - 1 - |s|);
    assert buf[..n + i] == s + src[..i];
  }

  // ----- the whole output

  /** What ends up in the buffer. */
  function Output(magic: seq<bv8>, salt: seq<bv8>, d: seq<bv8>): seq<bv8>
    requires |d| == DIGEST
  {
    Front(magic, salt) + [DOLLAR] + Packed(d)
  }

  function Front(magic: seq<bv8>, salt: seq<bv8>): seq<bv8>
  {
    [DOLLAR] + magic + [DOLLAR] + salt
  }

  /** The output tells everything that went in, as long as the magic string has no
      dollar sign; the salt may have some. */
  lemma OutputIsInjective(m: seq<bv8>, s: seq<bv8>, d: seq<bv8>, m': seq<bv8>, s': seq<bv8>, d': seq<bv8>)
    requires |d| == DIGEST == |d'| && DOLLAR !in m && DOLLAR !in m'
    requires Output(m, s, d) == Output(m', s', d')
    ensures m == m' && s == s' && d == d'
  {
    var o, o' := Output(m, s, d), Output(m', s', d');
    var n := |o| - LETTERS;
    assert o[n..] == Packed(d) && o'[n..] == Packed(d');
    PackingIsLossless(d);
    PackingIsLossless(d');
    assert o[..n - 1] == Front(m, s) && o'[..n - 1] == Front(m', s');
    FrontIsInjective(m, s, m', s');
  }

  lemma FrontAt(m: seq<bv8>, s: seq<bv8>)
    ensures |Front(m, s)| == |m| + |s| + 2 && Front(m, s)[1 + |m|] == DOLLAR
    ensures forall i :: 0 <= i < |m| ==> Front(m, s)[1 + i] == m[i]
    ensures forall i :: 0 <= i < |s| ==> Front(m, s)[2 + |m| + i] == s[i]
  {
  }

  lemma FrontIsInjective(m: seq<bv8>, s: seq<bv8>, m': seq<bv8>, s': seq<bv8>)
    requires DOLLAR !in m && DOLLAR !in m' && Front(m, s) == Front(m', s')
    ensures m == m' && s == s'
  {
    var f := Front(m, s);
    FrontAt(m, s);
    FrontAt(m', s');
    assert |m| == |m'|;
    assert f[1..1 + |m|] == m && f[2 + |m|..] == s;
  }

  /** The loop that fills buf_perm. */
  method Permute(buf: array<bv8>) returns (perm: array<bv8>)
    requires buf.Length == DIGEST
    ensures fresh(perm) && perm.Length == DIGEST && perm[..] == Permuted(buf[..])
  {
    perm := new bv8[DIGEST];
    var dest, source := 0, 0;
    while dest < 14
      invariant dest <= 14 && source == Stepped(dest)
      invariant forall k :: 0 <= k < dest ==> perm[k] == buf[Source(k)]
    {
      StepsBySix(dest);
      perm[dest] := buf[source];
      dest := dest + 1;
      source := (source + 6) % 17;
    }
    perm[14] := buf[5];
    perm[15] := buf[11];
  }

  /** One turn of the packing loop. */
  method PutQuad(p: array<bv8>, i: nat, out: array<bv8>, output: nat)
    requires p.Length == DIGEST && p != out && i + 3 <= DIGEST && output + 4 <= out.Length
    modifies out
    ensures out[..output] == old(out[..output])
    ensures SixBits(Quad(p[i..i + 3])) && out[output..output + 4] == Spelled(Quad(p[i..i + 3]))
  {
    QuadUndone(p[i..i + 3]);
    ghost var q := Quad(p[i..i + 3]);
    assert q[0] < 64 && q[1] < 64 && q[2] < 64 && q[3] < 64;
    out[output] := Letter(p[i + 2] & 0x3f);
    out[output + 1] := Letter(((p[i + 1] & 0xf) << 2) | (p[i + 2] >> 6));
    out[output + 2] := Letter(((p[i] & 3) << 4) | (p[i + 1] >> 4));
    out[output + 3] := Letter(p[i] >> 2);
  }

  /** The letters of group g, and the two at the end. */
  lemma LettersOf(p: seq<bv8>, g: nat)
    requires |p| == DIGEST && g < 5
    ensures SixBits(Quad(p[3 * g..3 * g + 3]))
    ensures Letters(p)[4 * g..4 * g + 4] == Spelled(Quad(p[3 * g..3 * g + 3]))
    ensures Letters(p)[20..] == Spelled(LastTwo(p[15]))
  {
    QuadsOfDigest(p[..15]);
    QuadsAt(Quad, p[..15], g, 5);
    assert p[..15][3 * g..3 * g + 3] == p[3 * g..3 * g + 3];
    assert Sixes(p)[4 * g..4 * g + 4] == Quads(Quad, p[..15], 5)[4 * g..4 * g + 4];
    SpelledSlice(Sixes(p), 4 * g, 4 * g + 4, Quad(p[3 * g..3 * g + 3]));
    SpelledSlice(Sixes(p), 20, 22, LastTwo(p[15]));
  }

  lemma SpelledSlice(v: seq<bv8>, a: nat, b: nat, w: seq<bv8>)
    requires SixBits(v) && a <= b <= |v| && w == v[a..b]
    ensures SixBits(w) && Spelled(v)[a..b] == Spelled(w)
  {
    assert forall i :: 0 <= i < |w| ==> w[i] == v[a + i];
  }

  /** One more piece of t is in place. */
  lemma PieceAdded(was: seq<bv8>, now: seq<bv8>, start: nat, n: nat, m: nat, t: seq<bv8>)
    requires |was| == |now| && n <= m <= |t| && start + m <= |now|
    requires was[start..start + n] == t[..n] && now[..start + n] == was[..start + n]
    requires now[start + n..start + m] == t[n..m]
    ensures now[..start] == was[..start] && now[start..start + m] == t[..m]
  {
    var k := start + n;
    assert now[..start] == now[..k][..start] && was[..start] == was[..k][..start];
    assert now[start..k] == now[..k][start..] && was[start..k] == was[..k][start..];
    assert now[start..start + m] == now[start..k] + now[k..start + m];
  }

  /** The packing loop. */
  method PackGroups(p: array<bv8>, out: array<bv8>, start: nat)
    requires p.Length == DIGEST && p != out && start + LETTERS < out.Length
    modifies out
    ensures out[..start] == old(out[..start])
    ensures out[start..start + 20] == Letters(p[..])[..20]
  {
    ghost var front, s := out[..start], Letters(p[..]);
    var i, output := 0, start;
    ghost var g := 0;
    while i < 15
      invariant g <= 5 && i == 3 * g && output == start + 4 * g
      invariant out[..][..start] == front
      invariant out[..][start..start + 4 * g] == s[..4 * g]
    {
      ghost var was := out[..];
      LettersOf(p[..], g);
      PutQuad(p, i, out, output);
      PieceAdded(was, out[..], start, 4 * g, 4 * g + 4, s);
      i, output, g := i + 3, output + 4, g + 1;
    }
  }

  /** The two letters after the loop and the end of the string. */
  method PutLast(b: bv8, out: array<bv8>, output: nat)
    requires output + 2 < out.Length
    modifies out
    ensures out[..output] == old(out[..output])
    ensures out[output..output + 2] == Spelled(LastTwo(b)) && out[output + 2] == 0
  {
    out[output] := Letter(b & 0x3f);
    out[output + 1] := Letter(b >> 6);
    out[output + 2] := 0;
  }

  /** The packing of the permuted digest. */
  method Pack(p: array<bv8>, out: array<bv8>, start: nat)
    requires p.Length == DIGEST && p != out && start + LETTERS < out.Length
    modifies out
    ensures out[..start] == old(out[..start])
    ensures out[start..start + LETTERS] == Letters(p[..]) && out[start + LETTERS] == 0
  {
    LettersOf(p[..], 0);
    PackGroups(p, out, start);
    ghost var was := out[..];
    PutLast(p[15], out, start + 20);
    PieceAdded(was, out[..], start, 20, 22, Letters(p[..]));
  }

  /** The front of the output, with the assertions on its length: `saltLen` is the
      length that is read back from the buffer. */
  method PutFront(magic: seq<bv8>, salt: seq<bv8>, out: array<bv8>) returns (ok: bool, saltLen: nat)
    requires CString(magic) && CString(salt) && out.Length == OUT_BUF
    modifies out
    ensures ok <==> |magic| <= 4 && |salt| <= 8
    ensures ok ==> saltLen == |salt| && Holds(out, Front(magic, salt))
  {
    out[0] := DOLLAR;
    out[1] := 0;
    if |magic| > 4 {
      return false, 0;
    }
    ghost var s := [DOLLAR];
    assert Holds(out, s);
    StrLCat(out, magic, s);
    assert magic[..|magic|] == magic;
    s := s + magic;
    StrLCat(out, [DOLLAR], s);
    s := s + [DOLLAR];
    StrLCat(out, salt, s);
    s := s + salt[..Min(|salt|, OUT_BUF - 1 - |s|)];
    var n := StrLen(out, 0, s);
    saltLen := StrLen(out, 2 + |magic|, s);
    ok := n <= 6 + 8 && saltLen <= 8;
    if |salt| <= 8 {
      assert salt[..|salt|] == salt;
    }
  }

  /** The output stage of md5crypt, from the finished digest `buf`: it goes through
      exactly when the assertions hold, and then the buffer holds the whole output. */
  method Finish(magic: seq<bv8>, salt: seq<bv8>, buf: array<bv8>, out: array<bv8>) returns (ok: bool)
    requires CString(magic) && CString(salt)
    requires buf.Length == DIGEST && out.Length == OUT_BUF && buf != out
    modifies out
    ensures ok <==> |magic| <= 4 && |salt| <= 8
    ensures ok ==> Holds(out, Output(magic, salt, buf[..])) && |Output(magic, salt, buf[..])| <= 37
  {
    var saltLen;
    ok, saltLen := PutFront(magic, salt, out);
    if ok {
      var perm := Permute(buf);
      var output := 2 + |magic| + saltLen;
      ghost var front := Front(magic, salt);
      assert out[..output] == front;
      out[output] := DOLLAR;
      assert out[..output + 1] == front + [DOLLAR];
      Pack(perm, out, output + 1);
      HoldsOutput(out, front + [DOLLAR], Packed(buf[..]));
    }
  }

  lemma HoldsOutput(out: array<bv8>, front: seq<bv8>, hash: seq<bv8>)
    requires CString(front) && AllLetters(hash) && |front| + |hash| < out.Length
    requires out[..|front|] == front && out[|front|..|front| + |hash|] == hash
    requires out[|front| + |hash|] == 0
    ensures Holds(out, front + hash)
  {
    assert out[..|front| + |hash|] == front + hash;
  }
}
