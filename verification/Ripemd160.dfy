/**
 The streaming wrapper around RIPEMD-160: buffering in `Write`, padding in
 `checkSum` (sections 3.1 and 3.2 of RFC 1320).  The compression function is an
 arbitrary function from a state and a 64-byte block to a state.
 */
module Ripemd160 {
  import opened Common
  import opened Radix

  const BLOCK: int := 64
  const WORD64: int := 0x1_0000_0000_0000_0000

  type U32 = x: int | 0 <= x < 0x1_0000_0000

  datatype State = State(s0: U32, s1: U32, s2: U32, s3: U32, s4: U32)

  const INITIAL := State(0x67452301, 0xefcdab89, 0x98badcfe, 0x10325476, 0xc3d2e1f0)

  type Compress = (State, seq<Byte>) -> State

  // -------------------------------------------------------- what is hashed

  /** The state after compressing every whole block of `message`. */
  function Absorb(compress: Compress, s: State, message: seq<Byte>): State
    decreases |message|
  {
    if |message| < BLOCK then s else Absorb(compress, compress(s, message[..BLOCK]), message[BLOCK..])
  }

  /** The bytes after the last whole block. */
  function Tail(message: seq<Byte>): (tail: seq<Byte>)
    ensures |tail| == |message| % BLOCK
  {
    message[|message| - |message| % BLOCK..]
  }

  /** Byte `i` of a number: `byte(n >> (8 * i))`. */
  function ByteAt(n: nat, i: nat): (b: Byte)
    ensures Power(256, i) > 0 && b == n / Power(256, i) % 256
  {
    PowerPositive(256, i);
    n / Power(256, i) % 256
  }

  /** The low `len` bytes of a number, least significant first. */
  function LittleEndian(n: nat, len: nat): (bytes: seq<Byte>)
    ensures |bytes| == len
    ensures forall i :: 0 <= i < len ==> bytes[i] == ByteAt(n, i)
  {
    seq(len, i requires 0 <= i < len => ByteAt(n, i))
  }

  function ZeroCount(length: nat): (zeros: nat)
    ensures (length + 1 + zeros + 8) % BLOCK == 0 && zeros < BLOCK
  {
    if length % 64 < 56 then 55 - length % 64 else 119 - length % 64
  }

  /** The message, one 0x80, zeros up to 56 modulo 64, and the bit length modulo 2^64. */
  function Padding(length: nat): (padding: seq<Byte>)
    ensures |padding| == 1 + ZeroCount(length) + 8
    ensures padding[0] == 0x80
    ensures forall i :: 1 <= i < |padding| - 8 ==> padding[i] == 0
    ensures forall i :: 0 <= i < 8 ==> padding[|padding| - 8 + i] == ByteAt(length * 8 % WORD64, i)
  {
    [0x80] + Repeat<Byte>(0, ZeroCount(length)) + LittleEndian(length * 8 % WORD64, 8)
  }

  function WordsOf(s: State): seq<U32> {
    [s.s0, s.s1, s.s2, s.s3, s.s4]
  }

  /** The five words of the state, each least significant byte first. */
  function Output(s: State): (out: seq<Byte>)
    ensures |out| == 20
    ensures forall k :: 0 <= k < 20 ==> out[k] == ByteAt(WordsOf(s)[k / 4], k % 4)
  {
    LittleEndian(s.s0, 4) + LittleEndian(s.s1, 4) + LittleEndian(s.s2, 4)
      + LittleEndian(s.s3, 4) + LittleEndian(s.s4, 4)
  }

  lemma Quotients(a: int, b: int, c: int, d: int)
    requires 0 <= a < 256 && 0 <= b < 256 && 0 <= c < 256 && 0 <= d < 256
    ensures var w := a + 0x100 * b + 0x1_0000 * c + 0x100_0000 * d;
            w % 256 == a && w / 0x100 % 256 == b && w / 0x1_0000 % 256 == c && w / 0x100_0000 % 256 == d
  {
    var w := a + 0x100 * b + 0x1_0000 * c + 0x100_0000 * d;
    DivModUnique(b + 0x100 * c + 0x1_0000 * d, a, 0x100);
    DivModUnique(c + 0x100 * d, a + 0x100 * b, 0x1_0000);
    DivModUnique(d, a + 0x100 * b + 0x1_0000 * c, 0x100_0000);
    DivModUnique(c + 0x100 * d, b, 0x100);
    DivModUnique(d, c, 0x100);
    assert w / 0x100 == b + 0x100 * (c + 0x100 * d);
  }

  lemma FirstPowers()
    ensures Power(256, 0) == 1 && Power(256, 1) == 0x100 && Power(256, 2) == 0x1_0000 && Power(256, 3) == 0x100_0000
  {
  }

  lemma WordOutput(w: U32, a: int, b: int, c: int, d: int)
    requires 0 <= a < 256 && 0 <= b < 256 && 0 <= c < 256 && 0 <= d < 256
    requires w == a + 0x100 * b + 0x1_0000 * c + 0x100_0000 * d
    ensures LittleEndian(w, 4) == [a, b, c, d]
  {
    FirstPowers();
    Quotients(a, b, c, d);
    assert ByteAt(w, 0) == a;
    assert ByteAt(w, 1) == b;
    assert ByteAt(w, 2) == c;
    assert ByteAt(w, 3) == d;
  }

  /** The initial state, output before any block: the hexadecimal digits up and down, and 0 to 3 between f and c. */
  lemma InitialBytes()
    ensures Output(INITIAL) == [0x01, 0x23, 0x45, 0x67, 0x89, 0xab, 0xcd, 0xef, 0xfe, 0xdc]
                               + [0xba, 0x98, 0x76, 0x54, 0x32, 0x10, 0xf0, 0xe1, 0xd2, 0xc3]
  {
    WordOutput(INITIAL.s0, 0x01, 0x23, 0x45, 0x67);
    WordOutput(INITIAL.s1, 0x89, 0xab, 0xcd, 0xef);
    WordOutput(INITIAL.s2, 0xfe, 0xdc, 0xba, 0x98);
    WordOutput(INITIAL.s3, 0x76, 0x54, 0x32, 0x10);
    WordOutput(INITIAL.s4, 0xf0, 0xe1, 0xd2, 0xc3);
  }

  /** Byte `i` of the length field is that byte of the bit length modulo 2^64, least significant first. */
  lemma LengthField(length: nat, i: nat)
    requires i < 8
    ensures Power(256, i) > 0
    ensures Padding(length)[|Padding(length)| - 8 + i] == length * 8 % 0x1_0000_0000_0000_0000 / Power(256, i) % 256
  {
    assert Padding(length)[|Padding(length)| - 8 + i] == ByteAt(length * 8 % WORD64, i);
  }

  /** Sections 3.1 and 3.2 of RFC 1320: a one bit, zeros, and the length in 64 bits, low-order byte first. */
  predicate IsPadding(length: nat, q: seq<Byte>) {
    && 9 <= |q| <= BLOCK + 8 && (length + |q|) % BLOCK == 0
    && q[0] == 0x80 && (forall i :: 1 <= i < |q| - 8 ==> q[i] == 0)
    && (forall i: nat :: i < 8 ==> HoldsLengthByte(length, q, i))
  }

  /** Byte `i` of the last eight is that byte of the bit length modulo 2^64. */
  predicate HoldsLengthByte(length: nat, q: seq<Byte>, i: nat)
    requires |q| >= 8 && i < 8
  {
    Power(256, i) > 0 && q[|q| - 8 + i] == length * 8 % 0x1_0000_0000_0000_0000 / Power(256, i) % 256
  }

  lemma PaddingIsPadding(length: nat)
    ensures IsPadding(length, Padding(length))
  {
    forall i: nat | i < 8
      ensures HoldsLengthByte(length, Padding(length), i)
    {
      LengthField(length, i);
    }
  }

  /** The code's padding is the only one of that form. */
  lemma PaddingDetermined(length: nat, q: seq<Byte>)
    ensures IsPadding(length, q) <==> q == Padding(length)
  {
    PaddingIsPadding(length);
    if IsPadding(length, q) {
      SamePadding(length, Padding(length), q);
    }
  }

  lemma SamePadding(length: nat, p: seq<Byte>, q: seq<Byte>)
    requires IsPadding(length, p) && IsPadding(length, q)
    ensures p == q
  {
    SameLength(length, |p|, |q|);
    forall k | 0 <= k < |p|
      ensures p[k] == q[k]
    {
      if k >= |p| - 8 {
        var i: nat := k - (|p| - 8);
        assert HoldsLengthByte(length, p, i) && HoldsLengthByte(length, q, i);
      }
    }
  }

  lemma SameLength(length: nat, m: nat, n: nat)
    requires 9 <= m <= BLOCK + 8 && 9 <= n <= BLOCK + 8
    requires (length + m) % BLOCK == 0 && (length + n) % BLOCK == 0
    ensures m == n
  {
  }

  /** Byte `i` of word `j` of the output, least significant first. */
  lemma OutputWord(s: State, j: nat, i: nat)
    requires j < 5 && i < 4
    ensures Power(256, i) > 0
    ensures Output(s)[4 * j + i] == [s.s0, s.s1, s.s2, s.s3, s.s4][j] / Power(256, i) % 256
  {
    assert (4 * j + i) / 4 == j && (4 * j + i) % 4 == i;
    assert Output(s)[4 * j + i] == ByteAt(WordsOf(s)[j], i);
  }

  /** The digest of a whole message. */
  function Digest(compress: Compress, message: seq<Byte>): seq<Byte> {
    Output(Absorb(compress, INITIAL, message + Padding(|message|)))
  }

  // ------------------------------------------------------------- streaming

  /** What a digest remembers: chaining state, bytes of an unfinished block, length modulo 2^64. */
  datatype Stream = Stream(s: State, pending: seq<Byte>, count: int)

  const EMPTY := Stream(INITIAL, [], 0)

  predicate WellFormed(d: Stream) {
    |d.pending| < BLOCK && 0 <= d.count < WORD64 && d.count % BLOCK == |d.pending|
  }

  function Feed(compress: Compress, d: Stream, p: seq<Byte>): Stream {
    var m := d.pending + p;
    Stream(Absorb(compress, d.s, m), Tail(m), (d.count + |p|) % WORD64)
  }

  lemma {:induction false} AbsorbConcat(compress: Compress, s: State, a: seq<Byte>, b: seq<Byte>)
    ensures Absorb(compress, s, a + b) == Absorb(compress, Absorb(compress, s, a), Tail(a) + b)
    decreases |a|
  {
    if |a| < BLOCK {
      assert Tail(a) == a;
    } else {
      assert (a + b)[..BLOCK] == a[..BLOCK] && (a + b)[BLOCK..] == a[BLOCK..] + b;
      AbsorbConcat(compress, compress(s, a[..BLOCK]), a[BLOCK..], b);
      assert Tail(a[BLOCK..]) == Tail(a);
    }
  }

  lemma TailConcat(a: seq<Byte>, b: seq<Byte>)
    ensures Tail(a + b) == Tail(Tail(a) + b)
  {
    var whole := |a| - |a| % BLOCK;
    assert a + b == a[..whole] + (Tail(a) + b);
    assert |a + b| % BLOCK == |Tail(a) + b| % BLOCK;
  }

  lemma CountAdds(count: int, m: nat, n: nat)
    ensures ((count + m) % WORD64 + n) % WORD64 == (count + (m + n)) % WORD64
  {
  }

  /** Two writes are one write of the concatenation. */
  lemma FeedConcat(compress: Compress, d: Stream, a: seq<Byte>, b: seq<Byte>)
    ensures Feed(compress, Feed(compress, d, a), b) == Feed(compress, d, a + b)
  {
    AbsorbConcat(compress, d.s, d.pending + a, b);
    TailConcat(d.pending + a, b);
    assert d.pending + (a + b) == d.pending + a + b;
    CountAdds(d.count, |a|, |b|);
  }

  function Flatten(chunks: seq<seq<Byte>>): seq<Byte> {
    if |chunks| == 0 then [] else Flatten(chunks[..|chunks| - 1]) + chunks[|chunks| - 1]
  }

  function FeedAll(compress: Compress, d: Stream, chunks: seq<seq<Byte>>): Stream {
    if |chunks| == 0 then d
    else Feed(compress, FeedAll(compress, d, chunks[..|chunks| - 1]), chunks[|chunks| - 1])
  }

  lemma FeedNothing(compress: Compress, d: Stream)
    requires WellFormed(d)
    ensures Feed(compress, d, []) == d
  {
    assert d.pending + [] == d.pending;
  }

  /** However a message is split into writes, the digest ends up in the same state. */
  lemma {:induction false} SplitsAgree(compress: Compress, d: Stream, chunks: seq<seq<Byte>>)
    requires WellFormed(d)
    ensures FeedAll(compress, d, chunks) == Feed(compress, d, Flatten(chunks))
  {
    if |chunks| == 0 {
      FeedNothing(compress, d);
    } else {
      SplitsAgree(compress, d, chunks[..|chunks| - 1]);
      FeedConcat(compress, d, Flatten(chunks[..|chunks| - 1]), chunks[|chunks| - 1]);
    }
  }

  lemma FeedWellFormed(compress: Compress, d: Stream, p: seq<Byte>)
    requires WellFormed(d)
    ensures WellFormed(Feed(compress, d, p))
  {
    ModModWord(d.count + |p|);
    SameRemainder(d.count, |d.pending|, |p|);
  }

  lemma SameRemainder(count: int, pending: nat, n: nat)
    requires 0 <= count && count % BLOCK == pending
    ensures (pending + n) % BLOCK == (count + n) % BLOCK
  {
  }

  lemma ModModWord(n: nat)
    ensures n % WORD64 % BLOCK == n % BLOCK
  {
  }

  // --------------------------------------------------------------- padding

  /** The padding the code derives from its wrapped byte counter. */
  function PaddingHead(count: int): (head: seq<Byte>)
    requires count >= 0
  {
    [0x80] + Repeat<Byte>(0, ZeroCount(count))
  }

  function PaddingLength(count: int): (length: seq<Byte>)
    requires count >= 0
    ensures |length| == 8
  {
    LittleEndian(count * 8 % WORD64, 8)
  }

  /** The wrapped counter pads like the true length. */
  lemma WrappedPadding(length: nat)
    ensures length % WORD64 >= 0
    ensures PaddingHead(length % WORD64) + PaddingLength(length % WORD64) == Padding(length)
  {
    ModModWord(length);
    TimesEight(length);
  }

  lemma TimesEight(n: nat)
    ensures n % WORD64 * 8 % WORD64 == n * 8 % WORD64
  {
  }

  /** What `checkSum` does to a stream: feed the head, then the length. */
  function Finish(compress: Compress, d: Stream): Stream
    requires d.count >= 0
  {
    Feed(compress, Feed(compress, d, PaddingHead(d.count)), PaddingLength(d.count))
  }

  /** Padding always completes the last block, so the buffer ends up empty. */
  lemma FinishEmptiesBuffer(compress: Compress, d: Stream)
    requires WellFormed(d)
    ensures Finish(compress, d).pending == []
  {
    FeedConcat(compress, d, PaddingHead(d.count), PaddingLength(d.count));
    var padding := PaddingHead(d.count) + PaddingLength(d.count);
    AddMod(d.count, |padding|);
  }

  lemma AddMod(count: int, n: nat)
    requires count >= 0 && (count + n) % BLOCK == 0
    ensures (count % BLOCK + n) % BLOCK == 0
  {
  }

  /** Finishing feeds the padding of the true length. */
  lemma FinishFeedsPadding(compress: Compress, message: seq<Byte>)
    ensures var d := Feed(compress, EMPTY, message);
            d.count >= 0 && Finish(compress, d) == Feed(compress, EMPTY, message + Padding(|message|))
  {
    var d := Feed(compress, EMPTY, message);
    WrappedPadding(|message|);
    FeedConcat(compress, d, PaddingHead(d.count), PaddingLength(d.count));
    FeedConcat(compress, EMPTY, message, Padding(|message|));
  }

  /** Streaming a message in any chunks and finishing gives the digest of the whole message. */
  lemma StreamingDigest(compress: Compress, chunks: seq<seq<Byte>>)
    ensures FeedAll(compress, EMPTY, chunks).count >= 0
    ensures Output(Finish(compress, FeedAll(compress, EMPTY, chunks)).s) == Digest(compress, Flatten(chunks))
  {
    var message := Flatten(chunks);
    SplitsAgree(compress, EMPTY, chunks);
    FinishFeedsPadding(compress, message);
    assert [] + (message + Padding(|message|)) == message + Padding(|message|);
  }

  lemma PaddedLengths(m: nat)
    ensures (m + |Padding(m)|) % BLOCK == 0
  {
  }

  /** Below 2^61 bytes, different messages are padded differently. */
  lemma PaddingInjective(a: seq<Byte>, b: seq<Byte>)
    requires |a| < 0x2000_0000_0000_0000 && |b| < 0x2000_0000_0000_0000
    requires a + Padding(|a|) == b + Padding(|b|)
    ensures a == b
  {
    LengthAtEnd(a);
    LengthAtEnd(b);
    LittleEndianInjective(|a| * 8, |b| * 8, 8);
    assert (a + Padding(|a|))[..|a|] == a && (b + Padding(|b|))[..|b|] == b;
  }

  lemma LengthAtEnd(a: seq<Byte>)
    requires |a| < 0x2000_0000_0000_0000
    ensures var padded := a + Padding(|a|);
            padded[|padded| - 8..] == LittleEndian(|a| * 8, 8)
  {
    EightFits(|a|);
    LastPart(a, [0x80] + Repeat<Byte>(0, ZeroCount(|a|)), LittleEndian(|a| * 8, 8));
  }

  lemma EightFits(n: nat)
    requires n < 0x2000_0000_0000_0000
    ensures n * 8 % WORD64 == n * 8
  {
  }

  lemma LastPart(a: seq<Byte>, b: seq<Byte>, c: seq<Byte>)
    requires |c| == 8
    ensures (a + (b + c))[|a + (b + c)| - 8..] == c
  {
    var s := a + (b + c);
    assert s == (a + b) + c;
  }

  lemma LittleEndianInjective(m: nat, n: nat, len: nat)
    requires m < WORD64 && n < WORD64 && len == 8 && LittleEndian(m, len) == LittleEndian(n, len)
    ensures m == n
  {
    var u, v := Fixed(256, len, m), Fixed(256, len, n);
    forall i | 0 <= i < len
      ensures u[i] == v[i]
    {
      FixedAt(256, len, m, len - 1 - i);
      FixedAt(256, len, n, len - 1 - i);
      assert LittleEndian(m, len)[len - 1 - i] == LittleEndian(n, len)[len - 1 - i];
    }
    assert u == v;
    assert Power(256, 4) == 0x1_0000_0000;
    PowerSum(256, 4, 4);
    ValueOfFixed(256, len, m);
    ValueOfFixed(256, len, n);
  }

  // ------------------------------------------------------------- the digest

  class Hasher {
    const compress: Compress
    const x: array<Byte>
    var s: State
    var nx: int
    var tc: int

    ghost predicate Valid()
      reads this, x
    {
      x.Length == BLOCK && 0 <= nx < BLOCK && 0 <= tc < WORD64 && tc % BLOCK == nx
    }

    /** The buffer behind `nx` is garbage and is not part of the value. */
    ghost function View(): (d: Stream)
      requires Valid()
      reads this, x
      ensures WellFormed(d)
    {
      Stream(s, x[..nx], tc)
    }

    constructor (compress: Compress)
      ensures Valid() && fresh(x) && this.compress == compress && View() == EMPTY
    {
      this.compress := compress;
      x := new Byte[64](_ => 0);
      s, nx, tc := INITIAL, 0, 0;
    }

    /** Compress every whole block of `p`; return how many bytes that was. */
    method Block(p: seq<Byte>) returns (n: nat)
      modifies `s
      ensures s == Absorb(compress, old(s), p) && n == |p| - |p| % BLOCK
    {
      n := 0;
      while |p| - n >= BLOCK
        invariant 0 <= n <= |p| && n % BLOCK == 0
        invariant Absorb(compress, s, p[n..]) == Absorb(compress, old(s), p)
      {
        assert p[n..][..BLOCK] == p[n..n + BLOCK] && p[n..][BLOCK..] == p[n + BLOCK..];
        s := compress(s, p[n..n + BLOCK]);
        n := n + BLOCK;
      }
    }

    /** Top up a partly filled buffer, compressing it when it is full. */
    method Fill(p: seq<Byte>) returns (rest: seq<Byte>)
      requires x.Length == BLOCK && 0 < nx < BLOCK
      modifies x, `nx, `s
      ensures 0 <= nx < BLOCK
      ensures var m := old(x[..nx]) + p;
              if |m| < BLOCK
              then s == old(s) && rest == [] && x[..nx] == m
              else s == compress(old(s), m[..BLOCK]) && nx == 0 && rest == m[BLOCK..]
    {
      ghost var pending := x[..nx];
      var n := if |p| > BLOCK - nx then BLOCK - nx else |p|;
      for i := 0 to n
        modifies x
        invariant x[..nx] == pending && forall k :: 0 <= k < i ==> x[nx + k] == p[k]
      {
        x[nx + i] := p[i];
      }
      assert x[..nx + n] == pending + p[..n];
      nx := nx + n;
      rest := p[n..];
      if nx == BLOCK {
        assert x[..] == (pending + p)[..BLOCK];
        BlockOfOne(compress, s, x[..]);
        var consumed := Block(x[..]);
        nx := 0;
      }
    }

    /** Keep the bytes of an unfinished block. */
    method Copy(rest: seq<Byte>)
      requires x.Length == BLOCK && |rest| < BLOCK
      modifies x, `nx
      ensures nx == |rest| && x[..nx] == rest
    {
      for i := 0 to |rest|
        modifies x
        invariant x[..i] == rest[..i]
      {
        x[i] := rest[i];
      }
      nx := |rest|;
    }

    method Write(p: seq<Byte>)
      requires Valid()
      modifies this, x
      ensures Valid() && View() == Feed(compress, old(View()), p)
    {
      ghost var d := View();
      ghost var m := d.pending + p;
      tc := (tc + |p|) % WORD64;
      var rest := p;
      if nx > 0 {
        rest := Fill(p);
      }
      if nx == 0 && d.pending != [] {
        assert |m| >= BLOCK;
      }
      ToppedUp(compress, d.s, d.pending, p, s, x[..nx], rest);
      var n := Block(rest);
      rest := rest[n..];
      if |rest| > 0 {
        Copy(rest);
      }
      FeedWellFormed(compress, d, p);
    }

    /** Padding on a copy: the digest itself keeps its value. */
    method CheckSum() returns (out: seq<Byte>)
      requires Valid()
      ensures out == Output(Finish(compress, View()).s)
    {
      var d := Clone();
      var length := tc;
      d.Write(PaddingHead(length));
      d.Write(PaddingLength(length));
      FinishEmptiesBuffer(compress, View());
      assert d.nx == 0;
      out := WriteWords(d.s);
    }

    method Clone() returns (d: Hasher)
      requires Valid()
      ensures fresh(d) && fresh(d.x) && d.Valid() && d.compress == compress && d.View() == View()
    {
      d := new Hasher(compress);
      d.s, d.nx, d.tc := s, nx, tc;
      forall i | 0 <= i < BLOCK {
        d.x[i] := x[i];
      }
      assert d.x[..nx] == x[..nx];
    }
  }

  /** The output loop: four shifted bytes for each word. */
  method WriteWords(s: State) returns (out: seq<Byte>)
    ensures out == Output(s)
  {
    out := [];
    for j := 0 to 5
      invariant |out| == 4 * j
      invariant forall k :: 0 <= k < 4 * j ==> out[k] == ByteAt(WordsOf(s)[k / 4], k % 4)
    {
      var w := WordsOf(s)[j];
      out := out + [w % 256, w / 0x100 % 256, w / 0x1_0000 % 256, w / 0x100_0000 % 256];
      FirstBytes(w);
    }
  }

  lemma FirstBytes(w: U32)
    ensures ByteAt(w, 0) == w % 256 && ByteAt(w, 1) == w / 0x100 % 256
    ensures ByteAt(w, 2) == w / 0x1_0000 % 256 && ByteAt(w, 3) == w / 0x100_0000 % 256
  {
    assert Power(256, 1) == 256 && Power(256, 2) == 0x1_0000 && Power(256, 3) == 0x100_0000;
  }

  /** After topping up, absorbing the rest finishes the absorption of everything. */
  lemma ToppedUp(compress: Compress, s0: State, pending: seq<Byte>, p: seq<Byte>,
                 s1: State, kept: seq<Byte>, rest: seq<Byte>)
    requires |pending| < BLOCK
    requires var m := pending + p;
             if pending == [] then s1 == s0 && kept == [] && rest == p
             else if |m| < BLOCK then s1 == s0 && kept == m && rest == []
             else s1 == compress(s0, m[..BLOCK]) && kept == [] && rest == m[BLOCK..]
    ensures var m := pending + p;
            && Absorb(compress, s1, rest) == Absorb(compress, s0, m)
            && Tail(m) == kept + Tail(rest)
  {
    var m := pending + p;
    if pending == [] {
      assert m == p;
    } else if |m| >= BLOCK {
      assert Tail(m) == Tail(m[BLOCK..]);
    }
  }

  lemma BlockOfOne(compress: Compress, s: State, block: seq<Byte>)
    requires |block| == BLOCK
    ensures Absorb(compress, s, block) == compress(s, block)
  {
    assert block[..BLOCK] == block;
    assert Absorb(compress, compress(s, block), block[BLOCK..]) == compress(s, block);
  }
}
