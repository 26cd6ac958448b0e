/**
 WebSocket frame headers, section 5.2 of RFC 6455: what the encoder writes, the getters
 read back, and the length is always in the shortest of its three forms.
 */
module FrameHeader {
  import opened MachineWord

  const BASIC_HEADER_LENGTH := 2
  const MAX_HEADER_LENGTH := 14
  const MAX_EXTENDED_HEADER_LENGTH := 12

  const BHB0_OPCODE: bv8 := 0x0F
  const BHB0_RSV3: bv8 := 0x10
  const BHB0_RSV2: bv8 := 0x20
  const BHB0_RSV1: bv8 := 0x40
  const BHB0_FIN: bv8 := 0x80
  const BHB1_PAYLOAD: bv8 := 0x7F
  const BHB1_MASK: bv8 := 0x80

  // ---------- network byte order ----------

  /** The bytes of a word, the most significant one first. */
  function BigEndianBytes(w: Word): (r: seq<Byte>)
    ensures |r| == 8
  {
    [SignificantByte(w, 7), SignificantByte(w, 6), SignificantByte(w, 5), SignificantByte(w, 4),
     SignificantByte(w, 3), SignificantByte(w, 2), SignificantByte(w, 1), SignificantByte(w, 0)]
  }

  /** The word whose bytes in memory are those of `w` in network order. */
  function NetworkOrder(m: Machine, w: Word): Word {
    Load(m, BigEndianBytes(w))
  }

  function Memory(m: Machine, w: Word): (r: seq<Byte>)
    ensures |r| == 8
  {
    seq(8, i requires 0 <= i < 8 => ByteAt(m, w, i))
  }

  /** In memory the converted word reads in network order, on either machine. */
  lemma NetworkOrderInMemory(m: Machine, w: Word)
    ensures Memory(m, NetworkOrder(m, w)) == BigEndianBytes(w)
  {
    hide SignificantByte, Load;
    forall i | 0 <= i < 8 ensures Memory(m, NetworkOrder(m, w))[i] == BigEndianBytes(w)[i] {
      Loaded(m, BigEndianBytes(w), i);
    }
  }

  /** Converting there and back is the identity. */
  lemma NetworkOrderTwice(m: Machine, w: Word)
    ensures NetworkOrder(m, NetworkOrder(m, w)) == w
  {
    hide Load, ByteAt, SignificantByte;
    NetworkOrderReverses(m, w);
    NetworkOrderReverses(m, NetworkOrder(m, w));
    var v := NetworkOrder(m, NetworkOrder(m, w));
    forall i | 0 <= i < 8 ensures ByteAt(m, v, i) == ByteAt(m, w, i) {
      assert ByteAt(m, v, i) == if m.LittleEndian? then ByteAt(m, NetworkOrder(m, w), 7 - i) else ByteAt(m, NetworkOrder(m, w), i);
    }
    SameBytes(m, v, w);
  }

  lemma NetworkOrderReverses(m: Machine, w: Word)
    ensures forall i :: 0 <= i < 8 ==>
              ByteAt(m, NetworkOrder(m, w), i) == ByteAt(m, w, if m.LittleEndian? then 7 - i else i)
  {
    hide SignificantByte, Load;
    forall i | 0 <= i < 8
      ensures ByteAt(m, NetworkOrder(m, w), i) == ByteAt(m, w, if m.LittleEndian? then 7 - i else i)
    {
      Loaded(m, BigEndianBytes(w), i);
    }
  }

  /** Swap the bytes of the word in place, unless the machine stores them in order already. */
  method Htonll(m: Machine, src: Word) returns (r: Word)
    ensures r == NetworkOrder(m, src)
  {
    hide SignificantByte, Load;
    NetworkOrderReverses(m, src);
    if m == BigEndian {
      r := src;
    } else {
      var x := new Byte[8](i requires 0 <= i < 8 => ByteAt(m, src, i));
      x[0], x[7] := x[7], x[0];
      x[1], x[6] := x[6], x[1];
      x[2], x[5] := x[5], x[2];
      x[3], x[4] := x[4], x[3];
      r := Load(m, x[..]);
      forall i | 0 <= i < 8 ensures ByteAt(m, r, i) == ByteAt(m, NetworkOrder(m, src), i) {
        Loaded(m, x[..], i);
        assert i == 0 || i == 1 || i == 2 || i == 3 || i == 4 || i == 5 || i == 6 || i == 7;
      }
    }
    SameBytes(m, r, NetworkOrder(m, src));
  }

  // ---------- the layout of section 5.2 ----------

  function Flag(value: bool, mask: bv8): bv8 {
    if value then mask else 0
  }

  function FirstOctet(op: bv8, fin: bool, rsv1: bool, rsv2: bool, rsv3: bool): bv8 {
    Flag(fin, BHB0_FIN) | Flag(rsv1, BHB0_RSV1) | Flag(rsv2, BHB0_RSV2) | Flag(rsv3, BHB0_RSV3) | (op & BHB0_OPCODE)
  }

  /** Within the limits of a seven bit and of a sixteen bit length. */
  predicate FitsBasic(size: Word) { size.bits <= 125 }

  predicate FitsExtended(size: Word) { size.bits <= 0xFFFF }

  /** The size cut to eight bits. */
  function LowByte(size: Word): bv8 { (size.bits & 0xFF) as bv8 }

  /** The three forms of the length. */
  datatype Form = Short | Medium | Jumbo

  function FormOf(size: Word): Form {
    if FitsBasic(size) then Short else if FitsExtended(size) then Medium else Jumbo
  }

  /** The seven bits of the length field. */
  function LengthCode(size: Word): bv8 {
    if FitsBasic(size) then LowByte(size) else if FitsExtended(size) then 126 else 127
  }

  /** The bytes of the length that follow the first two octets. */
  function LengthBytes(size: Word): (r: seq<Byte>)
    ensures |r| == match FormOf(size) case Short => 0 case Medium => 2 case Jumbo => 8
  {
    match FormOf(size)
    case Short => []
    case Medium => BigEndianBytes(size)[6..]
    case Jumbo => BigEndianBytes(size)
  }

  function SecondOctet(size: Word, masked: bool): bv8 {
    Flag(masked, BHB1_MASK) | LengthCode(size)
  }

  /** Everything after the first two octets: the long length and the key. */
  function Extension(size: Word, key: seq<Byte>): seq<Byte> {
    LengthBytes(size) + key
  }

  // ---------- the getters ----------

  predicate BitSet(b: bv8, mask: bv8) {
    b & mask == mask
  }

  function BasicSize(b1: bv8): bv8 {
    b1 & BHB1_PAYLOAD
  }

  function MaskingKeyOffset(b1: bv8): (n: nat)
    ensures n <= 8
  {
    if BasicSize(b1) == 126 then 2 else if BasicSize(b1) == 127 then 8 else 0
  }

  function HeaderLen(b1: bv8): (n: nat)
    ensures 2 <= n <= 14
  {
    BASIC_HEADER_LENGTH + MaskingKeyOffset(b1) + if BitSet(b1, BHB1_MASK) then 4 else 0
  }

  function ExtendedSize(bytes: seq<Byte>): Word
    requires |bytes| == MAX_EXTENDED_HEADER_LENGTH
  {
    Word((bytes[0].bits as bv64 << 8) | (bytes[1].bits as bv64))
  }

  function JumboSize(m: Machine, bytes: seq<Byte>): Word
    requires |bytes| == MAX_EXTENDED_HEADER_LENGTH
  {
    NetworkOrder(m, Load(m, bytes[..8]))
  }

  function PayloadSize(m: Machine, b1: bv8, bytes: seq<Byte>): Word
    requires |bytes| == MAX_EXTENDED_HEADER_LENGTH
  {
    var val := BasicSize(b1);
    if val <= 125 then Word(val as bv64)
    else if val == 126 then ExtendedSize(bytes)
    else JumboSize(m, bytes)
  }

  function MaskingKey(b1: bv8, bytes: seq<Byte>): (key: seq<Byte>)
    requires |bytes| == MAX_EXTENDED_HEADER_LENGTH
    ensures |key| == 4
  {
    if !BitSet(b1, BHB1_MASK) then [ZERO, ZERO, ZERO, ZERO]
    else bytes[MaskingKeyOffset(b1)..MaskingKeyOffset(b1) + 4]
  }

  // ---------- what is written is read back ----------

  lemma FirstOctetRecovers(op: bv8, fin: bool, rsv1: bool, rsv2: bool, rsv3: bool)
    ensures var b0 := FirstOctet(op, fin, rsv1, rsv2, rsv3);
            && BitSet(b0, BHB0_FIN) == fin && BitSet(b0, BHB0_RSV1) == rsv1
            && BitSet(b0, BHB0_RSV2) == rsv2 && BitSet(b0, BHB0_RSV3) == rsv3
            && (op <= BHB0_OPCODE ==> b0 & BHB0_OPCODE == op)
  {
  }

  lemma SecondOctetRecovers(size: Word, masked: bool)
    ensures var b1 := SecondOctet(size, masked);
            && BitSet(b1, BHB1_MASK) == masked
            && BasicSize(b1) == LengthCode(size)
            && MaskingKeyOffset(b1) == |LengthBytes(size)|
  {
    assert LengthCode(size) <= 127;
  }

  lemma LimitsNest(size: Word)
    ensures FitsBasic(size) ==> FitsExtended(size)
  {
  }

  lemma CodeGivesForm(size: Word)
    ensures var code := LengthCode(size);
            && (FormOf(size) == Short <==> code <= 125)
            && (FormOf(size) == Medium <==> code == 126)
            && (FormOf(size) == Jumbo <==> code == 127)
            && (FormOf(size) == Short ==> Word(code as bv64) == size)
  {
  }

  lemma MediumSize(w: bv64)
    requires w <= 0xFFFF
    ensures (Significant(w, 1) as bv64 << 8) | (Significant(w, 0) as bv64) == w
  {
  }

  lemma JumboRecovers(m: Machine, size: Word)
    ensures NetworkOrder(m, Load(m, BigEndianBytes(size))) == size
  {
    hide Load, SignificantByte;
    NetworkOrderTwice(m, size);
  }

  /**
   Size, key and header length are read back from any extended header that starts with the
   bytes that belong to it, whatever follows them.
   */
  lemma {:induction false} HeaderRecovers(m: Machine, size: Word, masked: bool, key: seq<Byte>, bytes: seq<Byte>)
    requires |key| == (if masked then 4 else 0) && |bytes| == MAX_EXTENDED_HEADER_LENGTH
    requires Extension(size, key) <= bytes
    ensures var b1 := SecondOctet(size, masked);
            && PayloadSize(m, b1, bytes) == size
            && MaskingKey(b1, bytes) == (if masked then key else [ZERO, ZERO, ZERO, ZERO])
            && HeaderLen(b1) == BASIC_HEADER_LENGTH + |Extension(size, key)|
  {
    hide BigEndianBytes, Load, NetworkOrder, BasicSize, SecondOctet, BitSet, FormOf, LengthCode, ExtendedSize;
    SecondOctetRecovers(size, masked);
    var length := LengthBytes(size);
    assert bytes[..|length|] == length && bytes[|length|..|length| + |key|] == key;
    CodeGivesForm(size);
    match FormOf(size)
    case Short =>
    case Medium => MediumRecovers(size, bytes);
    case Jumbo =>
      JumboRecovers(m, size);
      assert bytes[..8] == BigEndianBytes(size);
  }

  lemma MediumRecovers(size: Word, bytes: seq<Byte>)
    requires FormOf(size) == Medium && |bytes| == MAX_EXTENDED_HEADER_LENGTH
    requires bytes[..2] == LengthBytes(size)
    ensures ExtendedSize(bytes) == size
  {
    hide Significant;
    MediumSize(size.bits);
    assert bytes[0] == bytes[..2][0] && bytes[1] == bytes[..2][1];
  }

  // ---------- the octets on the wire ----------

  /** Every flag has its own bit, in the order of section 5.2, and the opcode the four lowest. */
  lemma FirstOctetLayout(op: bv8, fin: bool, rsv1: bool, rsv2: bool, rsv3: bool)
    ensures var b0 := FirstOctet(op, fin, rsv1, rsv2, rsv3);
            && (b0 & 0x80 != 0 <==> fin) && (b0 & 0x40 != 0 <==> rsv1)
            && (b0 & 0x20 != 0 <==> rsv2) && (b0 & 0x10 != 0 <==> rsv3)
            && b0 & 0x0F == op & 0x0F
  {
  }

  /** The mask bit is the highest, and the other seven hold a size up to 125 or one of two codes. */
  lemma SecondOctetLayout(size: Word, masked: bool)
    ensures var b1 := SecondOctet(size, masked);
            && (b1 & 0x80 != 0 <==> masked)
            && if size.bits <= 125 then (b1 & 0x7F) as bv64 == size.bits
               else b1 & 0x7F == if size.bits <= 65535 then 126 else 127
  {
    hide LengthCode;
    CodeOfSize(size);
    MaskAndCode(masked, LengthCode(size));
  }

  lemma CodeOfSize(size: Word)
    ensures var code := LengthCode(size);
            && code <= 127
            && if size.bits <= 125 then code as bv64 == size.bits else code == if size.bits <= 65535 then 126 else 127
  {
    hide FitsBasic, FitsExtended, LowByte;
    Limits(size);
    if size.bits <= 125 { SmallSize(size); }
  }

  lemma Limits(size: Word)
    ensures FitsBasic(size) <==> size.bits <= 125
    ensures FitsExtended(size) <==> size.bits <= 65535
  {
  }

  lemma SmallSize(size: Word)
    requires size.bits <= 125
    ensures LowByte(size) as bv64 == size.bits && LowByte(size) <= 127
  {
  }

  lemma MaskAndCode(masked: bool, code: bv8)
    requires code <= 127
    ensures var b1 := Flag(masked, BHB1_MASK) | code; (b1 & 0x80 != 0 <==> masked) && b1 & 0x7F == code
  {
  }

  function Shifted(n: bv64, b: bv8): bv64 {
    (n << 8) | b as bv64
  }

  /** The number that bytes stand for in network order. */
  function Number(bytes: seq<Byte>): bv64 {
    if bytes == [] then 0 else Shifted(Number(bytes[..|bytes| - 1]), bytes[|bytes| - 1].bits)
  }

  /** The bytes of a long length are the size in network order, two or eight of them. */
  lemma {:induction false} LengthLayout(size: Word)
    ensures |LengthBytes(size)| == if size.bits <= 125 then 0 else if size.bits <= 65535 then 2 else 8
    ensures LengthBytes(size) != [] ==> Number(LengthBytes(size)) == size.bits
  {
    hide BigEndianBytes, Number, FitsBasic, FitsExtended;
    Limits(size);
    LimitsNest(size);
    if FormOf(size) == Medium { MediumLayout(size); }
    if FormOf(size) == Jumbo { JumboLayout(size); }
  }

  lemma {:induction false} MediumLayout(size: Word)
    requires size.bits <= 65535
    ensures Number(BigEndianBytes(size)[6..]) == size.bits
  {
    hide Significant, Number, Shifted;
    NumberOfTwo(BigEndianBytes(size)[6..]);
    MediumNumber(size.bits);
  }

  lemma {:induction false} JumboLayout(size: Word)
    ensures Number(BigEndianBytes(size)) == size.bits
  {
    hide Significant, Number, Shifted, ShiftedTwice;
    NumberOfEight(BigEndianBytes(size));
    JumboNumber(size.bits);
  }

  lemma {:induction false} NumberSnoc(bytes: seq<Byte>)
    requires bytes != []
    ensures Number(bytes) == Shifted(Number(bytes[..|bytes| - 1]), bytes[|bytes| - 1].bits)
  {
    hide Shifted;
  }

  lemma NothingIsZero()
    ensures Number([]) == 0
  {
  }

  lemma {:induction false} NumberOfTwo(bytes: seq<Byte>)
    requires |bytes| >= 2
    ensures Number(bytes[..2]) == Shifted(Shifted(0, bytes[0].bits), bytes[1].bits)
    ensures |bytes| == 2 ==> bytes[..2] == bytes
  {
    hide Number, Shifted;
    NothingIsZero();
    NumberSnoc(bytes[..1]);
    assert bytes[..1][..0] == [];
    NumberSnoc(bytes[..2]);
    assert bytes[..2][..1] == bytes[..1];
  }

  lemma {:induction false} TwoMore(bytes: seq<Byte>, n: nat)
    requires n + 2 <= |bytes|
    ensures Number(bytes[..n + 2]) == Shifted(Shifted(Number(bytes[..n]), bytes[n].bits), bytes[n + 1].bits)
  {
    hide Number, Shifted;
    NumberSnoc(bytes[..n + 1]);
    assert bytes[..n + 1][..n] == bytes[..n];
    NumberSnoc(bytes[..n + 2]);
    assert bytes[..n + 2][..n + 1] == bytes[..n + 1];
  }

  function ShiftedTwice(n: bv64, x: bv8, y: bv8): bv64 {
    Shifted(Shifted(n, x), y)
  }

  lemma {:induction false} NumberOfEight(bytes: seq<Byte>)
    requires |bytes| == 8
    ensures Number(bytes) == ShiftedTwice(ShiftedTwice(ShiftedTwice(ShiftedTwice(0, bytes[0].bits, bytes[1].bits),
      bytes[2].bits, bytes[3].bits), bytes[4].bits, bytes[5].bits), bytes[6].bits, bytes[7].bits)
  {
    hide Number, Shifted;
    NumberOfTwo(bytes);
    TwoMore(bytes, 2);
    TwoMore(bytes, 4);
    TwoMore(bytes, 6);
    assert bytes[..8] == bytes;
  }

  lemma MediumNumber(w: bv64)
    requires w <= 0xFFFF
    ensures Shifted(Shifted(0, Significant(w, 1)), Significant(w, 0)) == w
  {
  }

  lemma JumboNumber(w: bv64)
    ensures ShiftedTwice(ShiftedTwice(ShiftedTwice(ShiftedTwice(0, Significant(w, 7), Significant(w, 6)),
      Significant(w, 5), Significant(w, 4)), Significant(w, 3), Significant(w, 2)), Significant(w, 1), Significant(w, 0)) == w
  {
  }

  // ---------- the shortest form ----------

  /** The three header lengths belong exactly to sizes up to 125, up to 65535 and beyond. */
  lemma ShortestForm(size: Word, masked: bool)
    ensures var n := HeaderLen(SecondOctet(size, masked)) - (if masked then 4 else 0);
            n == if size.bits <= 125 then 2 else if size.bits <= 65535 then 4 else 10
  {
    hide SecondOctet, BitSet, LengthBytes, HeaderLen;
    SecondOctetRecovers(size, masked);
    LengthLayout(size);
    LengthOfHeader(SecondOctet(size, masked));
  }

  lemma LengthOfHeader(b1: bv8)
    ensures HeaderLen(b1) == BASIC_HEADER_LENGTH + MaskingKeyOffset(b1) + if BitSet(b1, BHB1_MASK) then 4 else 0
  {
  }

  /** Whatever header a receiver reads the same size and mask bit from, it is no shorter. */
  lemma {:induction false} NoShorterHeader(m: Machine, size: Word, masked: bool, b1: bv8, bytes: seq<Byte>)
    requires |bytes| == MAX_EXTENDED_HEADER_LENGTH
    requires PayloadSize(m, b1, bytes) == size && BitSet(b1, BHB1_MASK) == masked
    ensures HeaderLen(SecondOctet(size, masked)) <= HeaderLen(b1)
  {
    hide SecondOctet, BitSet, BigEndianBytes, JumboSize, BasicSize;
    SecondOctetRecovers(size, masked);
    ShortestForm(size, masked);
    BasicSizeRange(b1);
    ExtendedSizeRange(bytes[0].bits, bytes[1].bits);
  }

  lemma BasicSizeRange(b1: bv8)
    ensures BasicSize(b1) <= 127
  {
  }

  lemma ExtendedSizeRange(x: bv8, y: bv8)
    ensures (x as bv64 << 8) | y as bv64 <= 0xFFFF
  {
  }

  // ---------- the two header structures ----------

  class BasicHeader {
    var b0: bv8
    var b1: bv8

    /** A header as received. */
    constructor Raw(p0: bv8, p1: bv8)
      ensures b0 == p0 && b1 == p1
    {
      b0, b1 := p0, p1;
    }

    constructor (op: bv8, size: Word, fin: bool, mask: bool, rsv1: bool, rsv2: bool, rsv3: bool)
      ensures b0 == FirstOctet(op, fin, rsv1, rsv2, rsv3) && b1 == SecondOctet(size, mask)
    {
      var f := FirstOctetOf(op, fin, rsv1, rsv2, rsv3);
      var s := SecondOctetOf(size, mask);
      b0, b1 := f, s;
    }

    static method FirstOctetOf(op: bv8, fin: bool, rsv1: bool, rsv2: bool, rsv3: bool) returns (f: bv8)
      ensures f == FirstOctet(op, fin, rsv1, rsv2, rsv3)
    {
      f := 0;
      if fin { f := f | BHB0_FIN; }
      assert f == Flag(fin, BHB0_FIN);
      if rsv1 { f := f | BHB0_RSV1; }
      assert f == Flag(fin, BHB0_FIN) | Flag(rsv1, BHB0_RSV1);
      if rsv2 { f := f | BHB0_RSV2; }
      assert f == Flag(fin, BHB0_FIN) | Flag(rsv1, BHB0_RSV1) | Flag(rsv2, BHB0_RSV2);
      if rsv3 { f := f | BHB0_RSV3; }
      f := f | (op & BHB0_OPCODE);
    }

    static method SecondOctetOf(size: Word, mask: bool) returns (s: bv8)
      ensures s == SecondOctet(size, mask)
    {
      hide LengthCode;
      s := 0;
      if mask { s := s | BHB1_MASK; }
      assert s == Flag(mask, BHB1_MASK);
      var basic_value := LengthCodeOf(size);
      s := s | basic_value;
    }

    static method LengthCodeOf(size: Word) returns (basic_value: bv8)
      ensures basic_value == LengthCode(size)
    {
      hide FitsBasic, FitsExtended, LowByte;
      if FitsBasic(size) {
        basic_value := LowByte(size);
      } else if FitsExtended(size) {
        basic_value := 126;
      } else {
        basic_value := 127;
      }
    }

    method SetFin(value: bool)
      modifies this`b0
      ensures BitSet(b0, BHB0_FIN) == value && b0 & 0x7F == old(b0) & 0x7F
    {
      b0 := if value then b0 | BHB0_FIN else b0 & !BHB0_FIN;
    }

    method SetRsv1(value: bool)
      modifies this`b0
      ensures BitSet(b0, BHB0_RSV1) == value && b0 & 0xBF == old(b0) & 0xBF
    {
      b0 := if value then b0 | BHB0_RSV1 else b0 & !BHB0_RSV1;
    }

    method SetMasked(value: bool)
      modifies this`b1
      ensures BitSet(b1, BHB1_MASK) == value && BasicSize(b1) == old(BasicSize(b1))
    {
      b1 := if value then b1 | BHB1_MASK else b1 & !BHB1_MASK;
    }
  }

  class ExtendedHeader {
    const bytes: array<Byte>

    /** The long length, then the key's octets if there is one; zero after that. */
    constructor (m: Machine, payload_size: Word, key: seq<Byte>)
      requires |key| == 0 || |key| == 4
      ensures fresh(bytes) && bytes.Length == MAX_EXTENDED_HEADER_LENGTH
      ensures Extension(payload_size, key) <= bytes[..]
    {
      hide BigEndianBytes, NetworkOrder, ByteAt, FormOf, LengthBytes;
      var b := new Byte[12](_ => ZERO);
      var payload_offset := PayloadOffset(payload_size);
      var temp64 := Htonll(m, payload_size);
      NetworkOrderInMemory(m, payload_size);
      var offset := 8 - payload_offset;
      var c := Memory(m, temp64);
      forall i | 0 <= i < offset {
        b[i] := c[payload_offset + i];
      }
      forall i | 0 <= i < |key| {
        b[offset + i] := key[i];
      }
      LengthTail(payload_size, payload_offset);
      assert b[..offset] == LengthBytes(payload_size);
      assert b[offset..offset + |key|] == key;
      assert b[..offset + |key|] == b[..offset] + b[offset..offset + |key|];
      bytes := b;
    }
  }

  /** Where in the eight bytes of a size the bytes to send start. */
  method PayloadOffset(payload_size: Word) returns (n: nat)
    ensures n == match FormOf(payload_size) case Short => 8 case Medium => 6 case Jumbo => 0
  {
    hide FitsBasic, FitsExtended;
    n := 0;
    if FitsBasic(payload_size) {
      n := 8;
    } else if FitsExtended(payload_size) {
      n := 6;
    }
  }

  /** The form says where in the eight bytes the length starts. */
  lemma LengthTail(size: Word, from: nat)
    requires from == match FormOf(size) case Short => 8 case Medium => 6 case Jumbo => 0
    ensures LengthBytes(size) == BigEndianBytes(size)[from..]
  {
    hide BigEndianBytes, FormOf;
    match FormOf(size)
    case Short =>
    case Medium =>
    case Jumbo => assert BigEndianBytes(size)[0..] == BigEndianBytes(size);
  }

  /** The encoded header, as long as its own second octet says. */
  method PrepareHeader(h: BasicHeader, e: ExtendedHeader) returns (ret: seq<Byte>)
    requires e.bytes.Length == MAX_EXTENDED_HEADER_LENGTH
    ensures |ret| == HeaderLen(h.b1) <= MAX_HEADER_LENGTH
    ensures ret == [Byte(h.b0), Byte(h.b1)] + e.bytes[..HeaderLen(h.b1) - BASIC_HEADER_LENGTH]
  {
    ret := [Byte(h.b0)];
    ret := ret + [Byte(h.b1)];
    ret := ret + e.bytes[..HeaderLen(h.b1) - BASIC_HEADER_LENGTH];
  }

  /**
   Encode a frame header and read it back: the two octets and the extension are those of
   section 5.2, and every getter returns what was put in.
   */
  method EncodeHeader(m: Machine, op: bv8, size: Word, fin: bool, rsv1: bool, rsv2: bool, rsv3: bool,
                      masked: bool, key: seq<Byte>)
    returns (wire: seq<Byte>)
    requires |key| == if masked then 4 else 0
    ensures wire == [Byte(FirstOctet(op, fin, rsv1, rsv2, rsv3)), Byte(SecondOctet(size, masked))] + Extension(size, key)
    ensures |wire| == HeaderLen(wire[1].bits)
    ensures forall rest: seq<Byte> :: |wire[2..] + rest| == MAX_EXTENDED_HEADER_LENGTH ==>
              && PayloadSize(m, wire[1].bits, wire[2..] + rest) == size
              && (masked ==> MaskingKey(wire[1].bits, wire[2..] + rest) == key)
  {
    hide FirstOctet, SecondOctet, LengthBytes, PayloadSize, MaskingKey, HeaderLen, BitSet;
    var h := new BasicHeader(op, size, fin, masked, rsv1, rsv2, rsv3);
    var e := new ExtendedHeader(m, size, key);
    HeaderRecovers(m, size, masked, key, e.bytes[..]);
    wire := PrepareHeader(h, e);
    assert wire[2..] == Extension(size, key);
    forall rest: seq<Byte> | |wire[2..] + rest| == MAX_EXTENDED_HEADER_LENGTH
      ensures PayloadSize(m, wire[1].bits, wire[2..] + rest) == size
      ensures masked ==> MaskingKey(wire[1].bits, wire[2..] + rest) == key
    {
      HeaderRecovers(m, size, masked, key, wire[2..] + rest);
    }
  }
}
