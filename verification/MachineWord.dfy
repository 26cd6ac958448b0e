/** Machine words of eight bytes and the order of their bytes in memory. */
module MachineWord {

  datatype Machine = LittleEndian | BigEndian

  /** A byte of memory, and a word. */
  datatype Byte = Byte(bits: bv8)
  datatype Word = Word(bits: bv64)

  /** Byte `k` of a word, the least significant one first. */
  function Significant(w: bv64, k: nat): bv8
    requires k < 8
  {
    if k == 0 then (w & 0xff) as bv8
    else if k == 1 then ((w >> 8) & 0xff) as bv8
    else if k == 2 then ((w >> 16) & 0xff) as bv8
    else if k == 3 then ((w >> 24) & 0xff) as bv8
    else if k == 4 then ((w >> 32) & 0xff) as bv8
    else if k == 5 then ((w >> 40) & 0xff) as bv8
    else if k == 6 then ((w >> 48) & 0xff) as bv8
    else (w >> 56) as bv8
  }

  /** The byte at address `i` of a word in memory. */
  function ByteAt(m: Machine, w: Word, i: nat): Byte
    requires i < 8
  {
    SignificantByte(w, if m.LittleEndian? then i else 7 - i)
  }

  function SignificantByte(w: Word, k: nat): Byte
    requires k < 8
  {
    Byte(Significant(w.bits, k))
  }

  /** The word with the given bytes, the least significant one first. */
  function Compose(b0: bv8, b1: bv8, b2: bv8, b3: bv8, b4: bv8, b5: bv8, b6: bv8, b7: bv8): (w: bv64)
  {
    b0 as bv64 | (b1 as bv64 << 8) | (b2 as bv64 << 16) | (b3 as bv64 << 24)
    | (b4 as bv64 << 32) | (b5 as bv64 << 40) | (b6 as bv64 << 48) | (b7 as bv64 << 56)
  }

  /** The word in eight bytes of memory. */
  function Load(m: Machine, c: seq<Byte>): Word
    requires |c| == 8
  {
    var b := if m.LittleEndian? then c else [c[7], c[6], c[5], c[4], c[3], c[2], c[1], c[0]];
    Word(Compose(b[0].bits, b[1].bits, b[2].bits, b[3].bits, b[4].bits, b[5].bits, b[6].bits, b[7].bits))
  }

  lemma Composed(b0: bv8, b1: bv8, b2: bv8, b3: bv8, b4: bv8, b5: bv8, b6: bv8, b7: bv8)
    ensures var w := Compose(b0, b1, b2, b3, b4, b5, b6, b7);
            && Significant(w, 0) == b0 && Significant(w, 1) == b1 && Significant(w, 2) == b2 && Significant(w, 3) == b3
            && Significant(w, 4) == b4 && Significant(w, 5) == b5 && Significant(w, 6) == b6 && Significant(w, 7) == b7
  {
  }

  /** A word is determined by its bytes. */
  lemma WordFromBytes(w: bv64)
    ensures Compose(Significant(w, 0), Significant(w, 1), Significant(w, 2), Significant(w, 3),
                    Significant(w, 4), Significant(w, 5), Significant(w, 6), Significant(w, 7)) == w
  {
  }

  /** Loading puts byte `i` of memory at address `i` of the word. */
  lemma Loaded(m: Machine, c: seq<Byte>, i: nat)
    requires |c| == 8 && i < 8
    ensures ByteAt(m, Load(m, c), i) == c[i]
  {
    hide Compose, Significant;
    var b := if m.LittleEndian? then c else [c[7], c[6], c[5], c[4], c[3], c[2], c[1], c[0]];
    Composed(b[0].bits, b[1].bits, b[2].bits, b[3].bits, b[4].bits, b[5].bits, b[6].bits, b[7].bits);
  }

  /** Two words with the same bytes are the same. */
  lemma SameBytes(m: Machine, v: Word, w: Word)
    requires forall i :: 0 <= i < 8 ==> ByteAt(m, v, i) == ByteAt(m, w, i)
    ensures v == w
  {
    hide Compose, Significant;
    WordFromBytes(v.bits);
    WordFromBytes(w.bits);
    forall k | 0 <= k < 8 ensures Significant(v.bits, k) == Significant(w.bits, k) {
      var i := if m.LittleEndian? then k else 7 - k;
      assert ByteAt(m, v, i) == ByteAt(m, w, i);
    }
  }

  // ---------- exclusive or ----------

  function XorBits(v: bv64, w: bv64): bv64 { v ^ w }

  function XorBits8(a: bv8, b: bv8): bv8 { a ^ b }

  function Xor(v: Word, w: Word): Word { Word(XorBits(v.bits, w.bits)) }

  function Xor8(a: Byte, b: Byte): Byte { Byte(XorBits8(a.bits, b.bits)) }

  lemma XorCancels(a: Byte, b: Byte)
    ensures Xor8(Xor8(a, b), b) == a
  {
  }

  lemma XorEachByte(v: bv64, w: bv64)
    ensures Significant(v ^ w, 0) == Significant(v, 0) ^ Significant(w, 0)
    ensures Significant(v ^ w, 1) == Significant(v, 1) ^ Significant(w, 1)
    ensures Significant(v ^ w, 2) == Significant(v, 2) ^ Significant(w, 2)
    ensures Significant(v ^ w, 3) == Significant(v, 3) ^ Significant(w, 3)
    ensures Significant(v ^ w, 4) == Significant(v, 4) ^ Significant(w, 4)
    ensures Significant(v ^ w, 5) == Significant(v, 5) ^ Significant(w, 5)
    ensures Significant(v ^ w, 6) == Significant(v, 6) ^ Significant(w, 6)
    ensures Significant(v ^ w, 7) == Significant(v, 7) ^ Significant(w, 7)
  {
  }

  lemma XorSignificant(v: bv64, w: bv64)
    ensures Significant(XorBits(v, w), 0) == XorBits8(Significant(v, 0), Significant(w, 0))
    ensures Significant(XorBits(v, w), 1) == XorBits8(Significant(v, 1), Significant(w, 1))
    ensures Significant(XorBits(v, w), 2) == XorBits8(Significant(v, 2), Significant(w, 2))
    ensures Significant(XorBits(v, w), 3) == XorBits8(Significant(v, 3), Significant(w, 3))
    ensures Significant(XorBits(v, w), 4) == XorBits8(Significant(v, 4), Significant(w, 4))
    ensures Significant(XorBits(v, w), 5) == XorBits8(Significant(v, 5), Significant(w, 5))
    ensures Significant(XorBits(v, w), 6) == XorBits8(Significant(v, 6), Significant(w, 6))
    ensures Significant(XorBits(v, w), 7) == XorBits8(Significant(v, 7), Significant(w, 7))
  {
    hide Significant;
    XorEachByte(v, w);
  }

  lemma XorBytes(v: Word, w: Word)
    ensures SignificantByte(Xor(v, w), 0) == Xor8(SignificantByte(v, 0), SignificantByte(w, 0))
    ensures SignificantByte(Xor(v, w), 1) == Xor8(SignificantByte(v, 1), SignificantByte(w, 1))
    ensures SignificantByte(Xor(v, w), 2) == Xor8(SignificantByte(v, 2), SignificantByte(w, 2))
    ensures SignificantByte(Xor(v, w), 3) == Xor8(SignificantByte(v, 3), SignificantByte(w, 3))
    ensures SignificantByte(Xor(v, w), 4) == Xor8(SignificantByte(v, 4), SignificantByte(w, 4))
    ensures SignificantByte(Xor(v, w), 5) == Xor8(SignificantByte(v, 5), SignificantByte(w, 5))
    ensures SignificantByte(Xor(v, w), 6) == Xor8(SignificantByte(v, 6), SignificantByte(w, 6))
    ensures SignificantByte(Xor(v, w), 7) == Xor8(SignificantByte(v, 7), SignificantByte(w, 7))
  {
    hide Significant, XorBits, XorBits8;
    XorSignificant(v.bits, w.bits);
  }

  /** Exclusive or works byte by byte. */
  lemma XorAt(m: Machine, v: Word, w: Word, i: nat)
    requires i < 8
    ensures ByteAt(m, Xor(v, w), i) == Xor8(ByteAt(m, v, i), ByteAt(m, w, i))
  {
    hide SignificantByte, Xor, Xor8;
    XorBytes(v, w);
    var k := if m.LittleEndian? then i else 7 - i;
    assert k == 0 || k == 1 || k == 2 || k == 3 || k == 4 || k == 5 || k == 6 || k == 7;
  }

  // ---------- or ----------

  const ZERO := Byte(0)

  function OrBits(v: bv64, w: bv64): bv64 { v | w }

  function OrBits8(a: bv8, b: bv8): bv8 { a | b }

  function Or(v: Word, w: Word): Word { Word(OrBits(v.bits, w.bits)) }

  function Or8(a: Byte, b: Byte): Byte { Byte(OrBits8(a.bits, b.bits)) }

  lemma OrZero(a: Byte)
    ensures Or8(a, ZERO) == a && Or8(ZERO, a) == a
  {
  }

  lemma OrEachByte(v: bv64, w: bv64)
    ensures Significant(v | w, 0) == Significant(v, 0) | Significant(w, 0)
    ensures Significant(v | w, 1) == Significant(v, 1) | Significant(w, 1)
    ensures Significant(v | w, 2) == Significant(v, 2) | Significant(w, 2)
    ensures Significant(v | w, 3) == Significant(v, 3) | Significant(w, 3)
    ensures Significant(v | w, 4) == Significant(v, 4) | Significant(w, 4)
    ensures Significant(v | w, 5) == Significant(v, 5) | Significant(w, 5)
    ensures Significant(v | w, 6) == Significant(v, 6) | Significant(w, 6)
    ensures Significant(v | w, 7) == Significant(v, 7) | Significant(w, 7)
  {
  }

  lemma OrSignificant(v: bv64, w: bv64)
    ensures Significant(OrBits(v, w), 0) == OrBits8(Significant(v, 0), Significant(w, 0))
    ensures Significant(OrBits(v, w), 1) == OrBits8(Significant(v, 1), Significant(w, 1))
    ensures Significant(OrBits(v, w), 2) == OrBits8(Significant(v, 2), Significant(w, 2))
    ensures Significant(OrBits(v, w), 3) == OrBits8(Significant(v, 3), Significant(w, 3))
    ensures Significant(OrBits(v, w), 4) == OrBits8(Significant(v, 4), Significant(w, 4))
    ensures Significant(OrBits(v, w), 5) == OrBits8(Significant(v, 5), Significant(w, 5))
    ensures Significant(OrBits(v, w), 6) == OrBits8(Significant(v, 6), Significant(w, 6))
    ensures Significant(OrBits(v, w), 7) == OrBits8(Significant(v, 7), Significant(w, 7))
  {
    hide Significant;
    OrEachByte(v, w);
  }

  lemma OrBytes(v: Word, w: Word)
    ensures SignificantByte(Or(v, w), 0) == Or8(SignificantByte(v, 0), SignificantByte(w, 0))
    ensures SignificantByte(Or(v, w), 1) == Or8(SignificantByte(v, 1), SignificantByte(w, 1))
    ensures SignificantByte(Or(v, w), 2) == Or8(SignificantByte(v, 2), SignificantByte(w, 2))
    ensures SignificantByte(Or(v, w), 3) == Or8(SignificantByte(v, 3), SignificantByte(w, 3))
    ensures SignificantByte(Or(v, w), 4) == Or8(SignificantByte(v, 4), SignificantByte(w, 4))
    ensures SignificantByte(Or(v, w), 5) == Or8(SignificantByte(v, 5), SignificantByte(w, 5))
    ensures SignificantByte(Or(v, w), 6) == Or8(SignificantByte(v, 6), SignificantByte(w, 6))
    ensures SignificantByte(Or(v, w), 7) == Or8(SignificantByte(v, 7), SignificantByte(w, 7))
  {
    hide Significant, OrBits, OrBits8;
    OrSignificant(v.bits, w.bits);
  }

  /** Where one word has a zero byte, the other one shows. */
  lemma OrAt(v: Word, w: Word, k: nat)
    requires k < 8
    ensures SignificantByte(w, k) == ZERO ==> SignificantByte(Or(v, w), k) == SignificantByte(v, k)
    ensures SignificantByte(v, k) == ZERO ==> SignificantByte(Or(v, w), k) == SignificantByte(w, k)
  {
    hide SignificantByte, Or, Or8;
    OrBytes(v, w);
    OrZero(SignificantByte(v, k));
    OrZero(SignificantByte(w, k));
    assert k == 0 || k == 1 || k == 2 || k == 3 || k == 4 || k == 5 || k == 6 || k == 7;
  }

  // ---------- shifts by whole bytes ----------

  function Right8(w: Word): Word { Word(w.bits >> 8) }

  function Left8(w: Word): Word { Word(w.bits << 8) }

  /** Shift right by 8 * k bits. */
  function ShiftRight(w: Word, k: nat): Word
    decreases k
  {
    if k == 0 then w else ShiftRight(Right8(w), k - 1)
  }

  /** Shift left by 8 * k bits. */
  function ShiftLeft(w: Word, k: nat): Word
    decreases k
  {
    if k == 0 then w else ShiftLeft(Left8(w), k - 1)
  }

  lemma RightByte(w: Word)
    ensures SignificantByte(Right8(w), 0) == SignificantByte(w, 1)
    ensures SignificantByte(Right8(w), 1) == SignificantByte(w, 2)
    ensures SignificantByte(Right8(w), 2) == SignificantByte(w, 3)
    ensures SignificantByte(Right8(w), 3) == SignificantByte(w, 4)
    ensures SignificantByte(Right8(w), 4) == SignificantByte(w, 5)
    ensures SignificantByte(Right8(w), 5) == SignificantByte(w, 6)
    ensures SignificantByte(Right8(w), 6) == SignificantByte(w, 7)
    ensures SignificantByte(Right8(w), 7) == ZERO
  {
  }

  lemma LeftByte(w: Word)
    ensures SignificantByte(Left8(w), 0) == ZERO
    ensures SignificantByte(Left8(w), 1) == SignificantByte(w, 0)
    ensures SignificantByte(Left8(w), 2) == SignificantByte(w, 1)
    ensures SignificantByte(Left8(w), 3) == SignificantByte(w, 2)
    ensures SignificantByte(Left8(w), 4) == SignificantByte(w, 3)
    ensures SignificantByte(Left8(w), 5) == SignificantByte(w, 4)
    ensures SignificantByte(Left8(w), 6) == SignificantByte(w, 5)
    ensures SignificantByte(Left8(w), 7) == SignificantByte(w, 6)
  {
  }

  lemma {:induction false} ShiftedRight(w: Word, k: nat, i: nat)
    requires i < 8
    ensures SignificantByte(ShiftRight(w, k), i) == if i + k < 8 then SignificantByte(w, i + k) else ZERO
    decreases k
  {
    hide SignificantByte, Right8;
    if k > 0 {
      ShiftedRight(Right8(w), k - 1, i);
      RightByte(w);
      var j := i + k - 1;
      assert j == 0 || j == 1 || j == 2 || j == 3 || j == 4 || j == 5 || j == 6 || j == 7 || j > 7;
    }
  }

  lemma {:induction false} ShiftedLeft(w: Word, k: nat, i: nat)
    requires i < 8
    ensures SignificantByte(ShiftLeft(w, k), i) == if i >= k then SignificantByte(w, i - k) else ZERO
    decreases k
  {
    hide SignificantByte, Left8;
    if k > 0 {
      ShiftedLeft(Left8(w), k - 1, i);
      LeftByte(w);
      var j := i - k + 1;
      assert j == 0 || j == 1 || j == 2 || j == 3 || j == 4 || j == 5 || j == 6 || j == 7 || j < 0;
    }
  }
}
