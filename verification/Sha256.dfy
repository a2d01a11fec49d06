/**
 * The streaming SHA-256 digest: buffering, padding, mid-states and serialization around an
 * opaque compression function (sections 5.1.1 and 6.2.2 of FIPS 180-4).
 */
module Sha256 {

  import opened Powers

  const CHUNK := 64
  const TWO64: nat := 0x1_0000_0000_0000_0000
  const TWO32: nat := 0x1_0000_0000

  type byte = x: int | 0 <= x < 256
  type word = x: int | 0 <= x < 0x1_0000_0000

  /** The eight state words. */
  type Words = s: seq<word> | |s| == 8 witness [0, 0, 0, 0, 0, 0, 0, 0]

  /** The compression of one 64-byte chunk. */
  type Compress = (Words, seq<byte>) -> Words


  const MAGIC: seq<byte> := [0x73, 0x68, 0x61, 0x03]

  // ---- the digest as a value ----

  /** The chaining words after the whole chunks of p. */
  function Blocks(c: Compress, h: Words, p: seq<byte>): Words
    decreases |p|
  {
    if |p| < CHUNK then h else Blocks(c, c(h, p[..CHUNK]), p[CHUNK..])
  }

  function Whole(n: nat): nat {
    n - n % CHUNK
  }

  /** The bytes after the last whole chunk. */
  function Rest(p: seq<byte>): (r: seq<byte>)
    ensures |r| == |p| % CHUNK
  {
    p[Whole(|p|)..]
  }

  /** What a digest remembers: chaining words, buffered bytes, and the length modulo 2^64. */
  datatype Digest = Digest(h: Words, tail: seq<byte>, len: nat)

  predicate WellFormed(d: Digest) {
    d.len < TWO64 && |d.tail| == d.len % CHUNK
  }

  function Absorb(c: Compress, d: Digest, p: seq<byte>): Digest {
    Digest(Blocks(c, d.h, d.tail + p), Rest(d.tail + p), (d.len + |p|) % TWO64)
  }

  function Fresh(iv: Words): Digest {
    Digest(iv, [], 0)
  }

  function Zeros(n: nat): (z: seq<byte>)
    ensures |z| == n
  {
    seq(n, _ => 0)
  }

  function Be32(w: nat): (b: seq<byte>)
    ensures |b| == 4
  {
    [w / 0x1000000 % 256, w / 0x10000 % 256, w / 0x100 % 256, w % 256]
  }

  function Be64(x: nat): (b: seq<byte>)
    ensures |b| == 8
  {
    Be32(x / TWO32) + Be32(x % TWO32)
  }

  /** A one bit and zeros up to 56 modulo 64. */
  function Filler(n: nat): (p: seq<byte>)
    ensures (n + |p|) % CHUNK == 56 && 1 <= |p| <= CHUNK
    ensures p[0] == 0x80 && forall i :: 0 < i < |p| ==> p[i] == 0
  {
    var r := n % CHUNK;
    [0x80] + Zeros(if r < 56 then 55 - r else 119 - r)
  }

  /** The padding of a message of n bytes: the filler, then the length in bits. */
  function Padding(n: nat): (p: seq<byte>)
    ensures (n + |p|) % CHUNK == 0
  {
    SizeBytesFit(n + |Filler(n)|);
    Filler(n) + Be64(8 * n % TWO64)
  }

  lemma SizeBytesFit(n: nat)
    requires n % CHUNK == 56
    ensures (n + 8) % CHUNK == 0
  {
  }

  function WordBytes(h: seq<word>): (b: seq<byte>)
    ensures |b| == 4 * |h|
  {
    if h == [] then [] else Be32(h[0]) + WordBytes(h[1..])
  }

  /** The words one after the other, four bytes each. */
  lemma {:induction false} WordBytesAt(h: seq<word>, i: nat)
    requires i < |h|
    ensures WordBytes(h)[4 * i..4 * i + 4] == Be32(h[i])
  {
    if i > 0 {
      WordBytesAt(h[1..], i - 1);
      assert WordBytes(h)[4..] == WordBytes(h[1..]);
      assert WordBytes(h)[4 * i..4 * i + 4] == WordBytes(h)[4..][4 * (i - 1)..4 * (i - 1) + 4];
    }
  }

  /** The checksum of what a digest has absorbed. */
  function Finish(c: Compress, d: Digest): seq<byte> {
    WordBytes(Blocks(c, d.h, d.tail + Padding(d.len)))
  }

  /** SHA-256 of a whole message. */
  function Sha256(c: Compress, iv: Words, m: seq<byte>): seq<byte> {
    WordBytes(Blocks(c, iv, m + Padding(|m|)))
  }

  // ---- absorbing ----

  lemma {:induction false} BlocksAppend(c: Compress, h: Words, a: seq<byte>, b: seq<byte>)
    requires |a| % CHUNK == 0
    ensures Blocks(c, h, a + b) == Blocks(c, Blocks(c, h, a), b)
    decreases |a|
  {
    if a == [] {
      assert a + b == b;
    } else {
      assert |a| >= CHUNK;
      assert (a + b)[..CHUNK] == a[..CHUNK] && (a + b)[CHUNK..] == a[CHUNK..] + b;
      BlocksAppend(c, c(h, a[..CHUNK]), a[CHUNK..], b);
    }
  }

  lemma WholeCarry(n: nat, k: nat)
    ensures Whole(n + k) == Whole(n) + Whole(n % CHUNK + k)
  {
    assert (n + k) % CHUNK == (n % CHUNK + k) % CHUNK;
  }

  /** Only the whole chunks count, and the rest can be carried over. */
  lemma BlocksCarry(c: Compress, h: Words, a: seq<byte>, b: seq<byte>)
    ensures Blocks(c, h, a + b) == Blocks(c, Blocks(c, h, a), Rest(a) + b)
    ensures Rest(a + b) == Rest(Rest(a) + b)
  {
    var k := Whole(|a|);
    var front := a[..k];
    assert a == front + Rest(a) && a + b == front + (Rest(a) + b);
    BlocksAppend(c, h, front, Rest(a) + b);
    BlocksAppend(c, h, front, Rest(a));
    assert Blocks(c, Blocks(c, h, front), Rest(a)) == Blocks(c, h, front);
    var ab, rb := a + b, Rest(a) + b;
    WholeCarry(|a|, |b|);
    assert ab == front + rb;
    assert ab[Whole(|ab|)..] == rb[Whole(|rb|)..];
  }

  /** Two writes are one write of the concatenation. */
  lemma AbsorbAppend(c: Compress, d: Digest, a: seq<byte>, b: seq<byte>)
    ensures Absorb(c, Absorb(c, d, a), b) == Absorb(c, d, a + b)
  {
    assert d.tail + (a + b) == (d.tail + a) + b;
    BlocksCarry(c, d.h, d.tail + a, b);
    assert ((d.len + |a|) % TWO64 + |b|) % TWO64 == (d.len + |a| + |b|) % TWO64;
  }

  function Concat(ws: seq<seq<byte>>): seq<byte> {
    if ws == [] then [] else ws[0] + Concat(ws[1..])
  }

  function AbsorbAll(c: Compress, d: Digest, ws: seq<seq<byte>>): Digest
    decreases |ws|
  {
    if ws == [] then d else AbsorbAll(c, Absorb(c, d, ws[0]), ws[1..])
  }

  lemma TailLength(len: nat, tail: nat, n: nat)
    requires tail == len % CHUNK
    ensures (tail + n) % CHUNK == (len + n) % CHUNK
  {
  }

  lemma AbsorbWellFormed(c: Compress, d: Digest, p: seq<byte>)
    requires WellFormed(d)
    ensures WellFormed(Absorb(c, d, p))
  {
    LengthWraps(d.len + |p|);
    TailLength(d.len, |d.tail|, |p|);
  }

  /** However a message is cut into writes, the digest is that of one write. */
  lemma {:induction false} SplitFree(c: Compress, d: Digest, ws: seq<seq<byte>>)
    requires WellFormed(d)
    ensures AbsorbAll(c, d, ws) == Absorb(c, d, Concat(ws))
    decreases |ws|
  {
    if ws == [] {
      assert d.tail + [] == d.tail;
      assert d.tail[0..] == d.tail;
    } else {
      AbsorbWellFormed(c, d, ws[0]);
      SplitFree(c, Absorb(c, d, ws[0]), ws[1..]);
      AbsorbAppend(c, d, ws[0], Concat(ws[1..]));
    }
  }

  lemma PaddedBlocks(c: Compress, h: Words, m: seq<byte>)
    ensures Blocks(c, Blocks(c, h, m), Rest(m) + Padding(|m| % TWO64)) == Blocks(c, h, m + Padding(|m|))
  {
    PaddingWraps(|m|);
    BlocksCarry(c, h, m, Padding(|m|));
  }

  /** The checksum of a fresh digest that absorbed m is the SHA-256 of m. */
  lemma FinishAbsorbed(c: Compress, iv: Words, m: seq<byte>)
    ensures Finish(c, Absorb(c, Fresh(iv), m)) == Sha256(c, iv, m)
  {
    PaddedBlocks(c, iv, m);
    var d := Absorb(c, Fresh(iv), m);
    assert [] + m == m;
    assert d.h == Blocks(c, iv, m) && d.tail == Rest(m) && d.len == |m| % TWO64;
    assert Blocks(c, d.h, d.tail + Padding(d.len)) == Blocks(c, iv, m + Padding(|m|));
  }

  /** Padding depends on the length modulo 2^64 only. */
  lemma PaddingWraps(n: nat)
    ensures Padding(n % TWO64) == Padding(n)
  {
    LengthWraps(n);
    assert Filler(n % TWO64) == Filler(n);
  }

  lemma LengthWraps(n: nat)
    ensures n % TWO64 % CHUNK == n % CHUNK && 8 * (n % TWO64) % TWO64 == 8 * n % TWO64
  {
    var d, r := n / TWO64, n % TWO64;
    assert n == r + (d * (TWO64 / CHUNK)) * CHUNK;
    ModPlus(r, d * (TWO64 / CHUNK), CHUNK);
    assert 8 * n == 8 * r + (8 * d) * TWO64;
    ModPlus(8 * r, 8 * d, TWO64);
  }

  /** However a message is cut into writes, the checksum is the SHA-256 of the message. */
  lemma StreamingIsSha256(c: Compress, iv: Words, ws: seq<seq<byte>>)
    ensures Finish(c, AbsorbAll(c, Fresh(iv), ws)) == Sha256(c, iv, Concat(ws))
  {
    SplitFree(c, Fresh(iv), ws);
    FinishAbsorbed(c, iv, Concat(ws));
  }

  /** One chunk is compressed once, into the words so far. */
  lemma OneChunk(c: Compress, h: Words, p: seq<byte>)
    requires |p| == CHUNK
    ensures Blocks(c, h, p) == c(h, p)
  {
    assert p[..CHUNK] == p && p[CHUNK..] == [];
  }

  // ---- serialization ----

  function FromBe32(b: seq<byte>): (w: word)
    requires |b| == 4
  {
    (b[0] as int) * 0x1000000 + (b[1] as int) * 0x10000 + (b[2] as int) * 0x100 + (b[3] as int)
  }

  function FromBe64(b: seq<byte>): (x: nat)
    requires |b| == 8
    ensures x < TWO64
  {
    FromBe32(b[..4]) * TWO32 + FromBe32(b[4..])
  }

  lemma Be32RoundTrip(w: word)
    ensures FromBe32(Be32(w)) == w
  {
    var a, b, c := w / 0x100, w / 0x10000, w / 0x1000000;
    assert a / 0x100 == b && b / 0x100 == c && c < 0x100;
    assert w == a * 0x100 + w % 0x100 && a == b * 0x100 + a % 0x100 && b == c * 0x100 + b % 0x100;
  }

  lemma Be64RoundTrip(x: nat)
    requires x < TWO64
    ensures FromBe64(Be64(x)) == x
  {
    Be32RoundTrip(x / TWO32);
    Be32RoundTrip(x % TWO32);
    assert Be64(x)[..4] == Be32(x / TWO32) && Be64(x)[4..] == Be32(x % TWO32);
  }

  /** The highest byte comes first. */
  lemma BigEndian(w: word)
    ensures var b := Be32(w); w == 16777216 * (b[0] as int) + 65536 * (b[1] as int) + 256 * (b[2] as int) + b[3] as int
  {
    Be32RoundTrip(w);
  }

  /**
   * The padding of section 5.1.1 of FIPS 180-4: a one bit, as few zeros as fit, and the length in bits
   * in the last eight bytes, highest byte first.
   */
  lemma PaddingMeaning(n: nat)
    ensures var p := Padding(n);
      && 9 <= |p| <= 72 && (n + |p|) % 64 == 0 && p[0] == 128
      && (forall i :: 0 < i < |p| - 8 ==> p[i] == 0)
      && FromBe64(p[|p| - 8..]) == 8 * n % 0x1_0000_0000_0000_0000
  {
    var p, f := Padding(n), Filler(n);
    assert forall i :: 0 <= i < |f| ==> p[i] == f[i];
    assert p[|p| - 8..] == Be64(8 * n % TWO64);
    Be64RoundTrip(8 * n % TWO64);
  }

  function BytesWords(b: seq<byte>): (h: seq<word>)
    requires |b| % 4 == 0
    ensures |h| == |b| / 4
  {
    if b == [] then [] else [FromBe32(b[..4])] + BytesWords(b[4..])
  }

  lemma {:induction false} WordsRoundTrip(h: seq<word>)
    ensures BytesWords(WordBytes(h)) == h
  {
    if h != [] {
      Be32RoundTrip(h[0]);
      var b := WordBytes(h);
      assert b[..4] == Be32(h[0]) && b[4..] == WordBytes(h[1..]);
      WordsRoundTrip(h[1..]);
    }
  }

  /** The words loaded from the first 32 bytes. */
  function StateWords(b: seq<byte>): Words
    requires |b| >= 32
  {
    BytesWords(b[..32])
  }

  /** MarshalBinary: magic, words, buffer filled with zeros to a chunk, length. */
  function Marshal(d: Digest): (b: seq<byte>)
    requires WellFormed(d)
    ensures |b| == 108
  {
    MAGIC + WordBytes(d.h) + d.tail + Zeros(CHUNK - |d.tail|) + Be64(d.len)
  }

  /** The layout of a marshalled digest: four bytes of magic, eight words, the buffer, the length. */
  lemma MarshalLayout(d: Digest)
    requires WellFormed(d)
    ensures var b := Marshal(d);
      && b[..4] == [115, 104, 97, 3] && b[4..36] == WordBytes(d.h) && b[36..36 + |d.tail|] == d.tail
      && (forall i :: 36 + |d.tail| <= i < 100 ==> b[i] == 0) && b[100..] == Be64(d.len)
  {
    var b, z := Marshal(d), Zeros(CHUNK - |d.tail|);
    assert forall i :: 0 <= i < |z| ==> b[36 + |d.tail| + i] == z[i];
    assert forall i :: 36 + |d.tail| <= i < 100 ==> b[i] == z[i - 36 - |d.tail|];
  }

  datatype Result = Loaded(d: Digest) | BadMagic | BadSize

  /** UnmarshalBinary */
  function Unmarshal(b: seq<byte>): (r: Result)
    ensures r.Loaded? ==> WellFormed(r.d)
  {
    if |b| < 4 || b[..4] != MAGIC then BadMagic
    else if |b| != 108 then BadSize
    else
      var len := FromBe64(b[100..]);
      Loaded(Digest(StateWords(b[4..]), b[36..36 + len % CHUNK], len))
  }

  /** Unmarshalling a marshalled digest gives a digest that behaves the same from then on. */
  lemma MarshalRoundTrip(d: Digest)
    requires WellFormed(d)
    ensures Unmarshal(Marshal(d)) == Loaded(d)
  {
    var b, w := Marshal(d), WordBytes(d.h);
    assert b[..4] == MAGIC;
    assert b[4..][..32] == w;
    assert b[36..36 + |d.tail|] == d.tail;
    assert b[100..] == Be64(d.len);
    WordsRoundTrip(d.h);
    Be64RoundTrip(d.len);
  }

  /** What a buffer holds after a copy into its front. */
  function Overlay(p: seq<byte>, x: seq<byte>): (r: seq<byte>)
    ensures |r| == |x|
  {
    if |p| <= |x| then p + x[|p|..] else p[..|x|]
  }

  /** A digest set up from an encoded state, bytes for a buffer that held x, and a length. */
  function MidState(state: seq<byte>, buf: seq<byte>, x: seq<byte>, len: nat): Digest
    requires |state| >= 32 && |x| == CHUNK
  {
    Digest(StateWords(state), Overlay(buf, x)[..len % CHUNK], len)
  }

  lemma MidStateOf(h: Words, prefix: seq<byte>, buf: seq<byte>, x: seq<byte>)
    requires Rest(prefix) <= buf && |x| == CHUNK
    ensures MidState(WordBytes(h), buf, x, |prefix| % TWO64) == Digest(h, Rest(prefix), |prefix| % TWO64)
  {
    var state := WordBytes(h);
    assert state[..32] == state;
    WordsRoundTrip(h);
    LengthWraps(|prefix|);
    assert Overlay(buf, x)[..|prefix| % CHUNK] == Rest(prefix);
  }

  /**
   * Mid-states: given the encoded state and the buffered tail of a prefix, hashing on from there
   * gives the SHA-256 of prefix and data together, whatever the buffer held before.
   */
  lemma MidStateContinues(c: Compress, iv: Words, prefix: seq<byte>, data: seq<byte>, buf: seq<byte>, x: seq<byte>)
    requires Rest(prefix) <= buf && |x| == CHUNK
    ensures var state := WordBytes(Blocks(c, iv, prefix));
      Finish(c, Absorb(c, MidState(state, buf, x, |prefix| % TWO64), data)) == Sha256(c, iv, prefix + data)
  {
    var h := Blocks(c, iv, prefix);
    MidStateOf(h, prefix, buf, x);
    var d := Absorb(c, Fresh(iv), prefix);
    assert [] + prefix == prefix;
    assert d == Digest(h, Rest(prefix), |prefix| % TWO64);
    AbsorbAppend(c, Fresh(iv), prefix, data);
    FinishAbsorbed(c, iv, prefix + data);
  }

  // ---- the digest updated in place ----

  lemma AbsorbNothing(c: Compress, h: Words, t: seq<byte>)
    requires |t| < CHUNK
    ensures Blocks(c, h, t) == h && Rest(t) == t
  {
    assert Whole(|t|) == 0;
  }

  lemma WholeChunks(c: Compress, h: Words, p: seq<byte>)
    ensures Blocks(c, h, p) == Blocks(c, h, p[..Whole(|p|)])
  {
    var k := Whole(|p|);
    assert p == p[..k] + p[k..];
    BlocksAppend(c, h, p[..k], p[k..]);
  }

  /** After the two writes of the padding nothing is buffered, and the words are the checksum. */
  lemma PaddingEmptiesBuffer(c: Compress, d: Digest)
    requires WellFormed(d)
    ensures var e := Absorb(c, Absorb(c, d, Filler(d.len)), Be64(8 * d.len % TWO64));
      e.tail == [] && WordBytes(e.h) == Finish(c, d)
  {
    AbsorbAppend(c, d, Filler(d.len), Be64(8 * d.len % TWO64));
    assert |d.tail + Padding(d.len)| % CHUNK == 0;
  }

  /** The built-in copy into x from offset at: as much as fits. */
  method CopyInto(x: array<byte>, at: nat, p: seq<byte>) returns (n: nat)
    requires at <= x.Length
    modifies x
    ensures n == if |p| <= x.Length - at then |p| else x.Length - at
    ensures x[..] == old(x[..at]) + p[..n] + old(x[at + n..])
  {
    n := if |p| <= x.Length - at then |p| else x.Length - at;
    for i := 0 to n
      invariant x[..at] == old(x[..at])
      invariant x[at..at + i] == p[..i]
      invariant x[at + i..] == old(x[at + i..])
    {
      x[at + i] := p[i];
    }
    assert x[..] == x[..at] + x[at..at + n] + x[at + n..];
  }

  class Sha256Digest {
    const compress: Compress
    const iv: Words
    const x: array<byte>
    var h: Words
    var nx: nat
    var len: nat

    ghost predicate Valid()
      reads this, x
    {
      x.Length == CHUNK && len < TWO64 && nx == len % CHUNK
    }

    ghost function Value(): Digest
      requires Valid()
      reads this, x
    {
      Digest(h, x[..nx], len)
    }

    constructor (c: Compress, start: Words)
      ensures Valid() && fresh(x)
      ensures compress == c && iv == start && Value() == Fresh(iv)
    {
      compress, iv := c, start;
      x := new byte[CHUNK](_ => 0);
      h, nx, len := start, 0, 0;
    }

    method Reset()
      requires Valid()
      modifies this
      ensures Valid() && Value() == Fresh(iv)
    {
      h, nx, len := iv, 0, 0;
    }

    /** block: compresses every whole chunk of p. */
    method Block(p: seq<byte>)
      modifies this`h
      ensures h == Blocks(compress, old(h), p)
    {
      var q := p;
      while |q| >= CHUNK
        invariant Blocks(compress, h, q) == Blocks(compress, old(h), p)
        decreases |q|
      {
        h := compress(h, q[..CHUNK]);
        q := q[CHUNK..];
      }
    }

    /** The part of Write that tops up a buffer in use; returns the bytes it did not take. */
    method TopUp(p: seq<byte>) returns (rest: seq<byte>)
      requires x.Length == CHUNK && 0 < nx < CHUNK
      modifies this`h, this`nx, x
      ensures rest == [] || nx == 0
      ensures nx > 0 ==> nx < CHUNK && h == old(h) && x[..nx] == old(x[..nx]) + p
      ensures nx == 0 ==> Blocks(compress, old(h), old(x[..nx]) + p) == Blocks(compress, h, rest)
      ensures nx == 0 ==> Rest(old(x[..nx]) + p) == Rest(rest)
    {
      ghost var t := x[..nx];
      var n := CopyInto(x, nx, p);
      rest := p[n..];
      nx := nx + n;
      assert x[..nx] == t + p[..n];
      assert t + p == (t + p[..n]) + rest;
      if nx == CHUNK {
        Block(x[..]);
        nx := 0;
        assert x[..] == t + p[..n];
        BlocksAppend(compress, old(h), t + p[..n], rest);
        BlocksCarry(compress, old(h), t + p[..n], rest);
        assert Rest(t + p[..n]) + rest == rest;
      }
    }

    /** The part of Write that starts from an empty buffer. */
    method Bulk(p: seq<byte>)
      requires x.Length == CHUNK && nx == 0
      modifies this`h, this`nx, x
      ensures nx < CHUNK && h == Blocks(compress, old(h), p) && x[..nx] == Rest(p)
    {
      var rest := p;
      if |p| >= CHUNK {
        var n := |p| - |p| % CHUNK;
        Block(p[..n]);
        WholeChunks(compress, old(h), p);
        rest := p[n..];
      }
      if |rest| > 0 {
        nx := CopyInto(x, 0, rest);
        assert x[..nx] == rest;
      }
    }

    method Write(p: seq<byte>) returns (nn: nat)
      requires Valid()
      modifies this`h, this`nx, this`len, x
      ensures Valid() && Value() == Absorb(compress, old(Value()), p)
      ensures nn == |p|
    {
      AbsorbWellFormed(compress, Value(), p);
      nn := |p|;
      len := (len + nn) % TWO64;
      var rest := p;
      ghost var t := x[..nx];
      if nx > 0 {
        rest := TopUp(p);
      } else {
        assert t + p == p;
      }
      if nx == 0 {
        Bulk(rest);
      } else {
        AbsorbNothing(compress, h, x[..nx]);
      }
    }

    /** checkSum: pads, after which the buffer is empty, and encodes the words. */
    method CheckSum() returns (sum: seq<byte>)
      requires Valid()
      modifies this`h, this`nx, this`len, x
      ensures Valid() && nx == 0
      ensures sum == Finish(compress, old(Value()))
    {
      var n := len;
      ghost var d := Value();
      var _ := Write(Filler(n));
      var _ := Write(Be64(8 * n % TWO64));
      PaddingEmptiesBuffer(compress, d);
      assert Value() == Absorb(compress, Absorb(compress, d, Filler(n)), Be64(8 * n % TWO64));
      sum := WordBytes(h);
    }

    /** Sum: appends the checksum of a copy, so that writing can go on. */
    method Sum(input: seq<byte>) returns (r: seq<byte>)
      requires Valid()
      ensures r == input + Finish(compress, Value())
    {
      var copy := new Sha256Digest(compress, iv);
      copy.h, copy.nx, copy.len := h, nx, len;
      var _ := CopyInto(copy.x, 0, x[..]);
      assert copy.x[..nx] == x[..nx];
      var sum := copy.CheckSum();
      r := input + sum;
    }

    /** CalcMidState: takes over a state, then hashes the data. */
    method CalcMidState(data: seq<byte>, state: seq<byte>, buf: seq<byte>, length: nat) returns (sum: seq<byte>)
      requires Valid() && |state| >= 32 && length < TWO64
      modifies this`h, this`nx, this`len, x
      ensures Valid()
      ensures sum == Finish(compress, Absorb(compress, MidState(state, buf, old(x[..]), length), data))
    {
      h := StateWords(state);
      len := length;
      ghost var was := x[..];
      var n := CopyInto(x, 0, buf);
      assert x[..] == Overlay(buf, was);
      nx := len % CHUNK;
      assert x[..nx] == Overlay(buf, was)[..nx];
      var _ := Write(data);
      sum := CheckSum();
    }

    method MarshalBinary() returns (b: seq<byte>)
      requires Valid()
      ensures b == Marshal(Value())
    {
      b := MAGIC + WordBytes(h) + x[..nx] + Zeros(CHUNK - nx) + Be64(len);
    }

    /** UnmarshalBinary: an error changes nothing. */
    method UnmarshalBinary(b: seq<byte>) returns (r: Result)
      requires Valid()
      modifies this`h, this`nx, this`len, x
      ensures Valid()
      ensures r == Unmarshal(b)
      ensures Value() == if r.Loaded? then r.d else old(Value())
    {
      if |b| < 4 || b[..4] != MAGIC { return BadMagic; }
      if |b| != 108 { return BadSize; }
      h := StateWords(b[4..]);
      var _ := CopyInto(x, 0, b[36..100]);
      assert x[..] == b[36..100];
      len := FromBe64(b[100..]);
      nx := len % CHUNK;
      assert x[..nx] == b[36..36 + nx];
      r := Loaded(Digest(h, x[..nx], len));
    }
  }

  /** Sum256 of data is its SHA-256. */
  method Sum256(c: Compress, iv: Words, data: seq<byte>) returns (sum: seq<byte>)
    ensures sum == Sha256(c, iv, data)
  {
    var d := new Sha256Digest(c, iv);
    var _ := d.Write(data);
    FinishAbsorbed(c, iv, data);
    sum := d.CheckSum();
  }
}
