/**
 Streaming MD5: partial blocks are buffered and the length is counted over any run of
 appends, and the end of the message is padded. The compression function is a parameter.
 */
module Md5 {
  import opened Bytes

  type word = w: int | 0 <= w < WORD

  const WORD: int := 0x1_0000_0000
  const DOUBLEWORD: int := 0x1_0000_0000_0000_0000
  const BLOCK: int := 64

  /** No object is larger than this. */
  const PTRDIFF_MAX: int := 0x7fff_ffff_ffff_ffff

  datatype Registers = Registers(a: word, b: word, c: word, d: word)

  type Compression = (Registers, seq<byte>) -> Registers

  const INITIAL := Registers(0x67452301, 0xffffffff - 0x10325476, 0xffffffff - 0x67452301, 0x10325476)

  // ---------- the algorithm of RFC 1321 on a whole message ----------

  /** Sections 3.3 and 3.4: run the compression over the full blocks of `m`. */
  function Digested(f: Compression, r: Registers, m: seq<byte>): Registers
    decreases |m|
  {
    if |m| < BLOCK then r else Digested(f, f(r, m[..BLOCK]), m[BLOCK..])
  }

  /** The bytes after the last full block. */
  function Leftover(m: seq<byte>): (r: seq<byte>)
    ensures |r| < BLOCK
    ensures |r| <= |m| && r == m[|m| - |r|..]
  {
    m[|m| - |m| % BLOCK..]
  }

  lemma LeftoverLength(m: seq<byte>)
    ensures |Leftover(m)| == |m| % BLOCK
  {
  }

  /** Low-order byte first. */
  function LittleEndian(n: nat, size: nat): (r: seq<byte>)
    ensures |r| == size
  {
    if size == 0 then [] else [n % 256] + LittleEndian(n / 256, size - 1)
  }

  function FromLittleEndian(s: seq<byte>): nat {
    if s == [] then 0 else s[0] + 256 * FromLittleEndian(s[1..])
  }

  function Power256(k: nat): (r: nat)
    ensures r > 0
  {
    if k == 0 then 1 else 256 * Power256(k - 1)
  }

  /** Section 3.1: how many padding bytes follow a message of length n. */
  function PaddingLength(n: nat): (k: nat)
    ensures 1 <= k <= BLOCK
    ensures (n + k) % BLOCK == 56
  {
    (55 - n) % BLOCK + 1
  }

  /** The counter for a message of n bytes. */
  function BitCount(n: nat): (r: nat)
    ensures r < DOUBLEWORD
  {
    8 * n % DOUBLEWORD
  }

  function Padding(k: nat): (r: seq<byte>)
    ensures |r| == k
    ensures k > 0 ==> r[0] == 0x80 && forall i :: 1 <= i < k ==> r[i] == 0
  {
    seq(k, i => if i == 0 then 0x80 else 0)
  }

  /** Sections 3.1 and 3.2: padding bits, then the low 64 bits of the length in bits. */
  function Padded(m: seq<byte>): (r: seq<byte>)
    ensures |r| % BLOCK == 0
  {
    var k := PaddingLength(|m|);
    assert (|m| + k + 8) % BLOCK == 0;
    m + Padding(k) + LittleEndian(BitCount(|m|), 8)
  }

  /** Section 3.5. */
  function Output(r: Registers): (s: seq<byte>)
    ensures |s| == 16
  {
    LittleEndian(r.a, 4) + LittleEndian(r.b, 4) + LittleEndian(r.c, 4) + LittleEndian(r.d, 4)
  }

  function Hash(f: Compression, m: seq<byte>): (s: seq<byte>)
    ensures |s| == 16
  {
    Output(Digested(f, INITIAL, Padded(m)))
  }

  /** The registers start with the bytes of section 3.3, low-order bytes first. */
  lemma InitialBytes()
    ensures Output(INITIAL) == [0x01, 0x23, 0x45, 0x67, 0x89, 0xab, 0xcd, 0xef, 0xfe, 0xdc, 0xba, 0x98, 0x76, 0x54, 0x32, 0x10]
  {
    hide LittleEndian;
    LowFirst(INITIAL.a, 0x01, 0x23, 0x45, 0x67);
    LowFirst(INITIAL.b, 0x89, 0xab, 0xcd, 0xef);
    LowFirst(INITIAL.c, 0xfe, 0xdc, 0xba, 0x98);
    LowFirst(INITIAL.d, 0x76, 0x54, 0x32, 0x10);
  }

  lemma {:induction false} LowFirst(w: word, a: byte, b: byte, c: byte, d: byte)
    requires w == a + 256 * (b + 256 * (c + 256 * d))
    ensures LittleEndian(w, 4) == [a, b, c, d]
  {
    hide LittleEndian;
    OneMoreByte(a, b + 256 * (c + 256 * d), 3);
    OneMoreByte(b, c + 256 * d, 2);
    OneMoreByte(c, d, 1);
    OneMoreByte(d, 0, 0);
    NoBytes(0);
    assert [a] + ([b] + ([c] + ([d] + []))) == [a, b, c, d];
  }

  lemma OneMoreByte(b: byte, n: nat, k: nat)
    ensures LittleEndian(b + 256 * n, k + 1) == [b] + LittleEndian(n, k)
  {
    Split(b, n);
    hide LittleEndian;
    LowestFirst(b + 256 * n, k);
  }

  lemma Split(b: byte, n: nat)
    ensures (b + 256 * n) % 256 == b && (b + 256 * n) / 256 == n
  {
  }

  lemma LowestFirst(n: nat, k: nat)
    ensures LittleEndian(n, k + 1) == [n % 256] + LittleEndian(n / 256, k)
  {
  }

  // ---------- facts about blocks ----------

  /** Full blocks already digested can be taken off the front. */
  lemma {:induction false} DigestedSplit(f: Compression, r: Registers, m: seq<byte>, x: seq<byte>)
    requires |m| % BLOCK == 0
    ensures Digested(f, r, m + x) == Digested(f, Digested(f, r, m), x)
    decreases |m|
  {
    if m == [] {
      assert m + x == x;
    } else {
      assert (m + x)[..BLOCK] == m[..BLOCK] && (m + x)[BLOCK..] == m[BLOCK..] + x;
      DigestedSplit(f, f(r, m[..BLOCK]), m[BLOCK..], x);
    }
  }

  /** What is digested of a message does not depend on the leftover. */
  lemma {:induction false} DigestedFull(f: Compression, m: seq<byte>, x: seq<byte>)
    ensures Digested(f, INITIAL, m + x) == Digested(f, Digested(f, INITIAL, m), Leftover(m) + x)
  {
    var k := |m| - |m| % BLOCK;
    assert m == m[..k] + m[k..] && m + x == m[..k] + (m[k..] + x);
    DigestedSplit(f, INITIAL, m[..k], m[k..] + x);
    DigestedSplit(f, INITIAL, m[..k], m[k..]);
  }

  lemma LeftoverAppend(m: seq<byte>, x: seq<byte>)
    ensures Leftover(m + x) == Leftover(Leftover(m) + x)
  {
    var k := |m| - |m| % BLOCK;
    assert (|m + x| - k) % BLOCK == |m + x| % BLOCK;
    assert Leftover(m) + x == (m + x)[k..];
  }

  /** The padding is the shortest that leaves room for exactly the length. */
  lemma PaddingIsShortest(n: nat, k: nat)
    requires k >= 1 && (n + k) % BLOCK == 56
    ensures PaddingLength(n) <= k
  {
  }

  lemma {:induction false} LittleEndianInverse(n: nat, size: nat)
    requires n < Power256(size)
    ensures FromLittleEndian(LittleEndian(n, size)) == n
    decreases size
  {
    if size > 0 {
      LittleEndianInverse(n / 256, size - 1);
    }
  }

  /** Different messages, up to the length field's 64 bits, are padded differently. */
  lemma {:induction false} PaddedIsInjective(m: seq<byte>, n: seq<byte>)
    requires 8 * |m| < DOUBLEWORD && 8 * |n| < DOUBLEWORD && Padded(m) == Padded(n)
    ensures m == n
  {
    hide LittleEndian, Padding, PaddingLength;
    var p := Padded(m);
    var x, y := LittleEndian(8 * |m|, 8), LittleEndian(8 * |n|, 8);
    assert p[|p| - 8..] == x && p[|p| - 8..] == y;
    Power8(8);
    LittleEndianInverse(8 * |m|, 8);
    LittleEndianInverse(8 * |n|, 8);
    assert p[..|m|] == m && p[..|n|] == n;
  }

  lemma Power8(k: nat)
    requires k == 8
    ensures Power256(k) == DOUBLEWORD
  {
    assert Power256(k - 4) == WORD by { assert Power256(k - 7) == 256; assert Power256(k - 6) == 65536; }
    assert Power256(k - 2) == WORD * 65536 by { assert Power256(k - 3) == WORD * 256; }
  }

  lemma WordBytes(w: nat)
    ensures LittleEndian(w, 4) == [w % 256, w / 256 % 256, w / 65536 % 256, w / 16777216 % 256]
  {
    var x := w / 256;
    var y := x / 256;
    assert x / 256 == w / 65536 && y / 256 == w / 16777216;
    assert LittleEndian(y, 2) == [y % 256] + LittleEndian(y / 256, 1);
    assert LittleEndian(x, 3) == [x % 256] + LittleEndian(y, 2);
  }

  /** `n` shifted left by `k` bytes. */
  function Shifted(n: nat, k: nat): nat {
    if k == 0 then n else 256 * Shifted(n, k - 1)
  }

  lemma {:induction false} TwoWords(lo: word, hi: word)
    ensures LittleEndian(lo + WORD * hi, 8) == LittleEndian(lo, 4) + LittleEndian(hi, 4)
  {
    hide LittleEndian;
    FourBytes(hi, 4);
    LowBytes(lo, hi, 4);
  }

  lemma FourBytes(n: nat, k: nat)
    requires k == 4
    ensures Shifted(n, k) == WORD * n && Power256(k) == WORD
  {
    assert Shifted(n, k - 3) == 256 * n && Power256(k - 3) == 256;
    assert Shifted(n, k - 2) == 65536 * n && Power256(k - 2) == 65536;
    assert Shifted(n, k - 1) == 16777216 * n && Power256(k - 1) == 16777216;
  }

  lemma {:induction false} LowBytes(lo: nat, hi: nat, k: nat)
    requires lo < Power256(k)
    ensures LittleEndian(lo + Shifted(hi, k), k + 4) == LittleEndian(lo, k) + LittleEndian(hi, 4)
    decreases k
  {
    hide LittleEndian;
    if k == 0 {
      NoBytes(lo);
      assert [] + LittleEndian(hi, 4) == LittleEndian(hi, 4);
    } else {
      var high := Shifted(hi, k - 1);
      LowByte(lo, high);
      LowBytes(lo / 256, hi, k - 1);
      FirstByte(lo + 256 * high, k + 4);
      FirstByte(lo, k);
      assert [lo % 256] + (LittleEndian(lo / 256, k - 1) + LittleEndian(hi, 4))
             == ([lo % 256] + LittleEndian(lo / 256, k - 1)) + LittleEndian(hi, 4);
    }
  }

  lemma NoBytes(n: nat)
    ensures LittleEndian(n, 0) == []
  {
  }

  lemma FirstByte(n: nat, size: nat)
    requires size > 0
    ensures LittleEndian(n, size) == [n % 256] + LittleEndian(n / 256, size - 1)
  {
  }

  lemma LowByte(lo: nat, high: nat)
    ensures (lo + 256 * high) % 256 == lo % 256 && (lo + 256 * high) / 256 == lo / 256 + high
  {
  }

  // ---------- runs of appends ----------

  /** What the state holds: registers, buffered bytes and the counter. */
  datatype Held = Held(registers: Registers, buffered: seq<byte>, count: nat)

  function HeldOf(f: Compression, m: seq<byte>): Held {
    Held(Digested(f, INITIAL, m), Leftover(m), BitCount(|m|))
  }

  /** One append, from nothing but what the state holds. */
  function Feed(f: Compression, h: Held, data: seq<byte>): Held {
    var rest := h.buffered + data;
    Held(Digested(f, h.registers, rest), Leftover(rest), Plus(h.count, |data|))
  }

  function FeedAll(f: Compression, pieces: seq<seq<byte>>): Held {
    if pieces == [] then HeldOf(f, [])
    else Feed(f, FeedAll(f, pieces[..|pieces| - 1]), pieces[|pieces| - 1])
  }

  lemma FeedOne(f: Compression, m: seq<byte>, data: seq<byte>)
    ensures Feed(f, HeldOf(f, m), data) == HeldOf(f, m + data)
  {
    hide Digested, Leftover, BitCount, Plus;
    DigestedFull(f, m, data);
    LeftoverAppend(m, data);
    CountAdds(|m|, |data|);
  }

  /** However a message is cut into appends, the state ends up a function of the whole message. */
  lemma {:induction false} PiecesFeedTheWhole(f: Compression, pieces: seq<seq<byte>>)
    ensures FeedAll(f, pieces) == HeldOf(f, Concat(pieces))
    decreases |pieces|
  {
    hide HeldOf, Feed;
    if pieces != [] {
      ConcatSnoc(pieces[..|pieces| - 1], pieces[|pieces| - 1]);
      assert pieces == pieces[..|pieces| - 1] + [pieces[|pieces| - 1]];
      PiecesFeedTheWhole(f, pieces[..|pieces| - 1]);
      FeedOne(f, Concat(pieces[..|pieces| - 1]), pieces[|pieces| - 1]);
    }
  }

  // ---------- the streaming state ----------

  class State {
    /** Message length in bits, low word first. */
    var count0: word
    var count1: word
    var abcd: Registers
    var buf: array<byte>
    const process: Compression
    ghost var message: seq<byte>

    ghost function Now(): Held
      reads this, buf
      requires buf.Length == BLOCK
    {
      Held(abcd, buf[..(count0 + WORD * count1) / 8 % BLOCK], count0 + WORD * count1)
    }

    /** The fields are a function of all the bytes appended so far, however they were cut. */
    ghost predicate Valid()
      reads this, buf
    {
      && buf.Length == BLOCK
      && count0 + WORD * count1 == BitCount(|message|)
      && abcd == Digested(process, INITIAL, message)
      && buf[..|message| % BLOCK] == Leftover(message)
    }

    constructor (f: Compression)
      ensures Valid() && message == [] && process == f && fresh(buf)
    {
      count0, count1 := 0, 0;
      abcd := INITIAL;
      buf := new byte[64];
      process := f;
      message := [];
    }

    lemma Holds()
      requires Valid()
      ensures Now() == HeldOf(process, message)
    {
      hide Digested, Leftover, BitCount;
      CountGivesOffset(|message|);
    }

    /** Count `n` more bytes, with the carry between the two words. */
    method CountBytes(n: nat)
      modifies this`count0, this`count1
      ensures count0 + WORD * count1 == Plus(old(count0) + WORD * old(count1), n)
    {
      ghost var c0, c1 := count0, count1;
      var nbits: word := 8 * n % WORD;
      count1 := (count1 + n / 0x2000_0000) % WORD;
      count0 := (count0 + nbits) % WORD;
      if count0 < nbits {
        count1 := (count1 + 1) % WORD;
      }
      WrapSum(c0, nbits);
      WrapIncrement(c1 + n / 0x2000_0000);
      Carry(c0, c1, n, nbits, count0, count1);
    }

    method Append(data: seq<byte>)
      requires Valid() && |data| <= PTRDIFF_MAX
      modifies this, buf
      ensures Valid() && message == old(message) + data && buf == old(buf)
      ensures Now() == Feed(process, old(Now()), data)
    {
      Holds();
      FeedOne(process, message, data);
      AppendBytes(data);
      Holds();
    }

    /** Fill the block under way, then go on with whole blocks. */
    method AppendBytes(data: seq<byte>)
      requires Valid() && |data| <= PTRDIFF_MAX
      modifies this, buf
      ensures Valid() && message == old(message) + data && buf == old(buf)
    {
      hide Digested, Leftover, BitCount, Plus, Valid;
      Opened();
      var nbytes := |data|;
      var offset := count0 / 8 % 64;
      OffsetIsLeftover(count0, count1, |message|);
      LeftoverLength(message);
      if nbytes == 0 {
        assert message + data == message;
        return;
      }
      CountBytes(nbytes);
      ghost var m := message;
      message := message + data;
      CountAdds(|m|, nbytes);
      DigestedFull(process, m, data);
      LeftoverAppend(m, data);
      ghost var kept := Leftover(m);
      var p := 0;
      if offset != 0 {
        var done;
        done, p := FillBlock(data, offset, kept);
        if done {
          DigestedShort(process, abcd, kept + data);
          Closed();
          return;
        }
      } else {
        assert kept + data == data[p..];
      }
      AppendBlocks(data, p);
    }

    /** Copy data behind the `kept` bytes of the block under way, and process the block when it is full. */
    method FillBlock(data: seq<byte>, offset: nat, ghost kept: seq<byte>) returns (done: bool, p: nat)
      requires buf.Length == BLOCK && 0 < offset < BLOCK && |kept| == offset && buf[..offset] == kept
      modifies this`abcd, buf
      ensures p <= |data|
      ensures done ==> |kept + data| < BLOCK && buf[..|kept + data|] == kept + data && abcd == old(abcd)
      ensures !done ==> Digested(process, abcd, data[p..]) == Digested(process, old(abcd), kept + data)
                        && Leftover(data[p..]) == Leftover(kept + data)
    {
      hide Digested, Leftover;
      ghost var rest := kept + data;
      p := if offset + |data| > 64 then 64 - offset else |data|;
      CopyTo(offset, data[..p]);
      assert buf[..offset + p] == rest[..offset + p];
      done := offset + p < 64;
      if done {
        assert rest[..offset + p] == rest;
      } else {
        DigestedStep(process, abcd, rest);
        assert buf[..] == rest[..64];
        abcd := process(abcd, buf[..]);
        assert rest[64..] == data[p..];
      }
    }

    lemma Opened()
      requires Valid()
      ensures buf.Length == BLOCK && count0 + WORD * count1 == BitCount(|message|)
      ensures abcd == Digested(process, INITIAL, message)
      ensures buf[..|Leftover(message)|] == Leftover(message)
    {
      hide Digested, Leftover, BitCount;
      LeftoverLength(message);
    }

    lemma Closed()
      requires buf.Length == BLOCK && count0 + WORD * count1 == BitCount(|message|)
      requires abcd == Digested(process, INITIAL, message)
      requires |Leftover(message)| <= BLOCK && buf[..|Leftover(message)|] == Leftover(message)
      ensures Valid()
    {
      hide Digested, Leftover, BitCount;
      LeftoverLength(message);
    }

    /** The full blocks of `data[start..]` are processed where they are, and the rest is kept. */
    method AppendBlocks(data: seq<byte>, start: nat)
      requires buf.Length == BLOCK && start <= |data|
      requires count0 + WORD * count1 == BitCount(|message|)
      requires Digested(process, INITIAL, message) == Digested(process, abcd, data[start..])
      requires Leftover(message) == Leftover(data[start..])
      modifies this`abcd, buf
      ensures Valid()
    {
      hide Digested, Leftover, BitCount, Valid;
      var p := start;
      while |data| - p >= 64
        invariant start <= p <= |data|
        invariant Digested(process, INITIAL, message) == Digested(process, abcd, data[p..])
        invariant Leftover(message) == Leftover(data[p..])
      {
        DigestedStep(process, abcd, data[p..]);
        assert data[p..][..64] == data[p..p + 64] && data[p..][64..] == data[p + 64..];
        abcd := process(abcd, data[p..p + 64]);
        p := p + 64;
      }
      DigestedShort(process, abcd, data[p..]);
      CopyTo(0, data[p..]);
      assert buf[..|data| - p] == data[p..];
      Closed();
    }

    /** Copy bytes into the block being accumulated. */
    method CopyTo(offset: nat, bytes: seq<byte>)
      requires offset + |bytes| <= buf.Length
      modifies buf
      ensures buf[..] == old(buf[..offset]) + bytes + old(buf[offset + |bytes|..])
    {
      forall i | 0 <= i < |bytes| {
        buf[offset + i] := bytes[i];
      }
      assert buf[..offset] == old(buf[..offset]);
      assert buf[offset..offset + |bytes|] == bytes;
      assert buf[offset + |bytes|..] == old(buf[offset + |bytes|..]);
      assert buf[..] == buf[..offset] + buf[offset..offset + |bytes|] + buf[offset + |bytes|..];
    }

    /** The digest is that of one pass over the padded message. */
    method Finish() returns (digest: seq<byte>)
      requires Valid()
      modifies this, buf
      ensures digest == Hash(process, old(message))
    {
      hide Digested, LittleEndian, Leftover, BitCount, Valid, PaddingLength, Padding, Padded, Output, WordBytesOf, Feed, Hash;
      Opened();
      ghost var m := message;
      var data := LengthBytes();
      var k := (55 - count0 / 8) % 64 + 1;
      OffsetIsLeftover(count0, count1, |m|);
      PaddingFromCount(count0, |m|);
      PaddingPrefix(k);
      Append(Padding(64)[..k]);
      Append(data);
      PaddedParts(m);
      Opened();
      assert abcd == Digested(process, INITIAL, Padded(m));
      HashIs(process, m);
      OutputBytes(abcd);
      digest := WordBytesOf(abcd.a) + WordBytesOf(abcd.b) + WordBytesOf(abcd.c) + WordBytesOf(abcd.d);
    }

    /** The eight bytes of the counter. */
    method LengthBytes() returns (data: seq<byte>)
      ensures data == LittleEndian(count0 + WORD * count1, 8)
    {
      hide LittleEndian;
      data := WordBytesOf(count0) + WordBytesOf(count1);
      WordBytes(count0);
      WordBytes(count1);
      TwoWords(count0, count1);
    }
  }

  /** The four bytes of a word, each by a shift and a truncation. */
  function WordBytesOf(w: word): (r: seq<byte>)
    ensures |r| == 4
  {
    [w % 256, w / 256 % 256, w / 65536 % 256, w / 16777216 % 256]
  }

  lemma OutputBytes(r: Registers)
    ensures Output(r) == WordBytesOf(r.a) + WordBytesOf(r.b) + WordBytesOf(r.c) + WordBytesOf(r.d)
  {
    hide LittleEndian;
    WordBytes(r.a);
    WordBytes(r.b);
    WordBytes(r.c);
    WordBytes(r.d);
  }

  lemma HashIs(f: Compression, m: seq<byte>)
    ensures Hash(f, m) == Output(Digested(f, INITIAL, Padded(m)))
  {
  }

  lemma PaddingPrefix(k: nat)
    requires k <= 64
    ensures Padding(64)[..k] == Padding(k)
  {
  }

  lemma PaddedParts(m: seq<byte>)
    ensures Padded(m) == m + Padding(PaddingLength(|m|)) + LittleEndian(BitCount(|m|), 8)
  {
    hide Padding, LittleEndian, BitCount;
  }

  lemma DigestedShort(f: Compression, r: Registers, m: seq<byte>)
    requires |m| < BLOCK
    ensures Digested(f, r, m) == r && Leftover(m) == m
  {
  }

  lemma {:induction false} DigestedStep(f: Compression, r: Registers, m: seq<byte>)
    requires |m| >= BLOCK
    ensures Digested(f, r, m) == Digested(f, f(r, m[..BLOCK]), m[BLOCK..])
    ensures Leftover(m) == Leftover(m[BLOCK..])
  {
    hide Leftover;
    LeftoverStep(m);
  }

  lemma LeftoverStep(m: seq<byte>)
    requires |m| >= BLOCK
    ensures Leftover(m) == Leftover(m[BLOCK..])
  {
    hide Leftover;
    LeftoverLength(m);
    LeftoverLength(m[BLOCK..]);
    var n := |m|;
    assert |m[BLOCK..]| == n - BLOCK;
    assert (n - BLOCK) % BLOCK == n % BLOCK;
  }

  /** Adding word by word is adding the whole counter. */
  lemma Carry(c0: word, c1: word, n: nat, nbits: word, lo: word, hi: word)
    requires nbits == 8 * n % WORD
    requires lo == if c0 + nbits < WORD then c0 + nbits else c0 + nbits - WORD
    requires hi == (c1 + n / 0x2000_0000 + (if lo < nbits then 1 else 0)) % WORD
    ensures lo + WORD * hi == Plus(c0 + WORD * c1, n)
  {
    var h := n / 0x2000_0000;
    assert 8 * n == nbits + WORD * h;
    WrapWords(c0 + WORD * c1 + 8 * n, lo, c1 + h + if lo < nbits then 1 else 0);
  }

  lemma WrapSum(x: word, y: word)
    ensures (x + y) % WORD == if x + y < WORD then x + y else x + y - WORD
  {
  }

  lemma WrapIncrement(n: nat)
    ensures (n % WORD + 1) % WORD == (n + 1) % WORD
  {
  }

  lemma WrapWords(total: nat, lo: word, high: nat)
    requires total == lo + WORD * high
    ensures total % DOUBLEWORD == lo + WORD * (high % WORD)
  {
    assert total == lo + WORD * (high % WORD) + DOUBLEWORD * (high / WORD);
  }

  /** A counter after n more bytes. */
  function Plus(count: nat, n: nat): (r: nat)
    ensures r < DOUBLEWORD
  {
    (count + 8 * n) % DOUBLEWORD
  }

  lemma CountAdds(m: nat, n: nat)
    ensures Plus(BitCount(m), n) == BitCount(m + n)
  {
  }

  lemma CountGivesOffset(n: nat)
    ensures BitCount(n) / 8 % BLOCK == n % BLOCK
  {
    WholeBlocks(n, BitCount(n), 0x80_0000 * WORD * (8 * n / DOUBLEWORD));
  }

  /** Counting in bits and taking off whole blocks leaves the position in the block. */
  lemma WholeBlocks(n: nat, bits: nat, blocks: int)
    requires 8 * n == bits + 512 * blocks
    ensures bits / 8 % 64 == n % 64
  {
    assert bits == 8 * (n - 64 * blocks);
    assert bits / 8 == n - 64 * blocks;
  }

  lemma OffsetIsLeftover(lo: word, hi: word, n: nat)
    requires lo + WORD * hi == BitCount(n)
    ensures lo / 8 % 64 == n % BLOCK
  {
    var q := 8 * n / DOUBLEWORD;
    assert 8 * n == lo + WORD * hi + DOUBLEWORD * q;
    WholeBlocks(n, lo, 0x80_0000 * hi + 0x80_0000 * WORD * q);
  }

  lemma PaddingFromCount(lo: word, n: nat)
    requires lo / 8 % 64 == n % BLOCK
    ensures (55 - lo / 8) % 64 + 1 == PaddingLength(n)
  {
  }

  /** The digest of a whole string. */
  method Md5HashString(f: Compression, s: seq<byte>) returns (digest: seq<byte>)
    requires |s| <= PTRDIFF_MAX
    ensures digest == Hash(f, s)
  {
    hide Hash;
    var state := new State(f);
    state.Append(s);
    assert [] + s == s;
    digest := state.Finish();
  }
}
