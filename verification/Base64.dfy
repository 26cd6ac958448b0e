/**
 Base64 in the alphabet of section 4 of RFC 4648: the encoder writes the digits of each
 24-bit group and the padding, and the decoder gives the bytes back.
 */
module Base64 {
  import opened Bytes

  const EQUALS: byte := 61

  type sextet = n: int | 0 <= n < 64

  /** The alphabet: A to Z, a to z, 0 to 9, + and /. */
  function Alphabet(n: sextet): (c: byte)
    ensures IsBase64(c)
  {
    if n < 26 then 65 + n else if n < 52 then 97 + n - 26 else if n < 62 then 48 + n - 52 else if n == 62 then 43 else 47
  }

  predicate IsBase64(c: byte) {
    c == 43 || 47 <= c <= 57 || 65 <= c <= 90 || 97 <= c <= 122
  }

  /** Position in the alphabet, cut to a byte; a character that is not there gives 255. */
  function Position(c: byte): (n: byte)
    ensures IsBase64(c) ==> n < 64 && Alphabet(n) == c
    ensures !IsBase64(c) ==> n == 255
  {
    if 65 <= c <= 90 then c - 65 else if 97 <= c <= 122 then c - 97 + 26 else if 48 <= c <= 57 then c - 48 + 52
    else if c == 43 then 62 else if c == 47 then 63 else 255
  }

  lemma PositionOfAlphabet(n: sextet)
    ensures Position(Alphabet(n)) == n
  {
  }

  /** Table 1 of RFC 4648, sixteen characters a row. */
  function TableRow(r: nat): (row: string)
    requires r < 4
    ensures |row| == 16
  {
    if r == 0 then "ABCDEFGHIJKLMNOP"
    else if r == 1 then "QRSTUVWXYZabcdef"
    else if r == 2 then "ghijklmnopqrstuv"
    else "wxyz0123456789+/"
  }

  /** The alphabet and its padding character are those of the table. */
  lemma AlphabetIsTable(n: sextet)
    ensures Alphabet(n) == TableRow(n / 16)[n % 16] as int && EQUALS == '=' as int
  {
    hide Alphabet, TableRow;
    var r, k := n / 16, n % 16;
    assert n == 16 * r + k;
    if r < 2 { if r == 0 { FirstRow(k); } else { SecondRow(k); } }
    else if r == 2 { ThirdRow(k); } else { FourthRow(k); }
  }

  lemma FirstRow(k: nat)
    requires k < 16
    ensures Alphabet(k) == TableRow(0)[k] as int
  {
  }

  lemma SecondRow(k: nat)
    requires k < 16
    ensures Alphabet(16 + k) == TableRow(1)[k] as int
  {
  }

  lemma ThirdRow(k: nat)
    requires k < 16
    ensures Alphabet(32 + k) == TableRow(2)[k] as int
  {
  }

  lemma FourthRow(k: nat)
    requires k < 16
    ensures Alphabet(48 + k) == TableRow(3)[k] as int
  {
  }

  // ---------- the encoding of section 4 ----------

  /** The three bytes as one number, and its four digits to base 64. */
  function Group(a: byte, b: byte, c: byte): (g: nat)
    ensures g < 0x100_0000
  {
    65536 * a + 256 * b + c
  }

  function Digit(g: nat, k: nat): sextet
    requires g < 0x100_0000 && k < 4
  {
    if k == 0 then g / 64 / 64 / 64 else if k == 1 then g / 64 / 64 % 64 else if k == 2 then g / 64 % 64 else g % 64
  }

  /** The first `n` characters of a group. */
  function Characters(g: nat, n: nat): (r: seq<byte>)
    requires g < 0x100_0000 && n <= 4
    ensures |r| == n
  {
    seq(n, k requires 0 <= k < n => Alphabet(Digit(g, k)))
  }

  function Padding(n: nat): (r: seq<byte>)
    ensures |r| == n
  {
    seq(n, _ => EQUALS)
  }

  /** A group of `n` bytes, filled up with zero bits, as four characters. */
  function EncodeGroup(x: seq<byte>): (r: seq<byte>)
    requires 1 <= |x| <= 3
    ensures |r| == 4
  {
    var g := Group(x[0], if |x| > 1 then x[1] else 0, if |x| > 2 then x[2] else 0);
    Characters(g, |x| + 1) + Padding(3 - |x|)
  }

  function Encode(x: seq<byte>): (r: seq<byte>)
    ensures |r| == 4 * ((|x| + 2) / 3)
  {
    if x == [] then []
    else if |x| < 3 then EncodeGroup(x)
    else EncodeGroup(x[..3]) + Encode(x[3..])
  }

  // ---------- the decoding ----------

  /** The leading characters of the alphabet. */
  function Valid(s: seq<byte>): (r: seq<byte>)
    ensures r <= s && forall i :: 0 <= i < |r| ==> IsBase64(r[i])
    ensures |r| < |s| ==> !IsBase64(s[|r|])
  {
    if s != [] && IsBase64(s[0]) then [s[0]] + Valid(s[1..]) else []
  }

  /** The number that four positions make, and its three bytes. */
  function Number(p: sextet, q: sextet, r: sextet, t: sextet): (g: nat)
    ensures g < 0x100_0000
  {
    262144 * p + 4096 * q + 64 * r + t
  }

  function BytesOf(g: nat): (r: seq<byte>)
    requires g < 0x100_0000
    ensures |r| == 3
  {
    [g / 256 / 256, g / 256 % 256, g % 256]
  }

  /** The six bits a character stands for. */
  function Sextet(c: byte): sextet {
    if IsBase64(c) then Position(c) else 0
  }

  /** The bytes of up to four characters: one less than there are characters. */
  function DecodeGroup(d: seq<byte>): (r: seq<byte>)
    requires 1 <= |d| <= 4
    ensures |r| == |d| - 1
  {
    var g := Number(Sextet(d[0]), if |d| > 1 then Sextet(d[1]) else 0,
                    if |d| > 2 then Sextet(d[2]) else 0, if |d| > 3 then Sextet(d[3]) else 0);
    BytesOf(g)[..|d| - 1]
  }

  function DecodeDigits(d: seq<byte>): seq<byte> {
    if d == [] then []
    else if |d| < 4 then DecodeGroup(d)
    else DecodeGroup(d[..4]) + DecodeDigits(d[4..])
  }

  function Decode(s: seq<byte>): seq<byte> {
    DecodeDigits(Valid(s))
  }

  // ---------- the round trip ----------

  lemma EightBits(high: nat, low: nat)
    requires low < 256
    ensures (256 * high + low) / 256 == high && (256 * high + low) % 256 == low
  {
  }

  lemma SixBits(high: nat, low: nat)
    requires low < 64
    ensures (64 * high + low) / 64 == high && (64 * high + low) % 64 == low
  {
  }

  lemma GroupBytes(a: byte, b: byte, c: byte)
    ensures BytesOf(Group(a, b, c)) == [a, b, c]
  {
    EightBits(256 * a + b, c);
    EightBits(a, b);
    assert Group(a, b, c) == 256 * (256 * a + b) + c;
  }

  /** The digits as the encoder computes them, byte by byte. */
  lemma DigitsByBytes(a: byte, b: byte, c: byte)
    ensures var g := Group(a, b, c);
            && Digit(g, 0) == a / 4
            && Digit(g, 1) == a % 4 * 16 + b / 16
            && Digit(g, 2) == b % 16 * 4 + c / 64
            && Digit(g, 3) == c % 64
  {
    var g := Group(a, b, c);
    var a0, a1 := a / 4, a % 4;
    var b0, b1 := b / 16, b % 16;
    var c0, c1 := c / 64, c % 64;
    assert a == 4 * a0 + a1 && b == 16 * b0 + b1 && c == 64 * c0 + c1;
    assert g == 262144 * a0 + 4096 * (16 * a1 + b0) + 64 * (4 * b1 + c0) + c1;
    DigitsOfNumber(a0, 16 * a1 + b0, 4 * b1 + c0, c1);
  }

  lemma DigitsOfNumber(p: sextet, q: sextet, r: sextet, t: sextet)
    ensures var g := Number(p, q, r, t);
            Digit(g, 0) == p && Digit(g, 1) == q && Digit(g, 2) == r && Digit(g, 3) == t
  {
    var h := 64 * p + q;
    var m := 64 * h + r;
    assert Number(p, q, r, t) == 64 * m + t;
    SixBits(m, t);
    SixBits(h, r);
    SixBits(p, q);
  }

  /** The bytes as the decoder computes them, digit by digit; a later digit cannot change an earlier byte. */
  lemma BytesByDigits(p: sextet, q: sextet, r: sextet, t: sextet)
    ensures var g := Number(p, q, r, t);
            BytesOf(g) == [p * 4 + q / 16, q % 16 * 16 + r / 4, r % 4 * 64 + t]
  {
    var q0, q1, r0, r1 := q / 16, q % 16, r / 4, r % 4;
    assert q == 16 * q0 + q1 && r == 4 * r0 + r1;
    assert Number(p, q, r, t) == Group(4 * p + q0, 16 * q1 + r0, 64 * r1 + t);
    GroupBytes(4 * p + q0, 16 * q1 + r0, 64 * r1 + t);
  }

  lemma {:induction false} DecodedLength(d: seq<byte>)
    ensures |DecodeDigits(d)| == 3 * |d| / 4
    decreases |d|
  {
    hide DecodeGroup;
    if |d| >= 4 {
      DecodedLength(d[4..]);
    }
  }

  /** Eight bits out of twelve: the byte that starts in the first of two digits. */
  function Across(p: sextet, q: sextet, k: nat): byte
    requires k < 3
  {
    (64 * p + q) / (if k == 0 then 16 else if k == 1 then 4 else 1) % 256
  }

  lemma AcrossDigits(p: sextet, q: sextet)
    ensures Across(p, q, 0) == p * 4 + q / 16 && Across(p, q, 1) == p % 16 * 16 + q / 4 && Across(p, q, 2) == p % 4 * 64 + q
  {
    AcrossFirst(p, q);
    AcrossSecond(p, q);
    AcrossThird(p, q);
  }

  lemma AcrossFirst(p: sextet, q: sextet)
    ensures Across(p, q, 0) == p * 4 + q / 16
  {
    var n := p * 4 + q / 16;
    assert 64 * p + q == 16 * n + q % 16;
    assert (16 * n + q % 16) / 16 == n;
  }

  lemma AcrossSecond(p: sextet, q: sextet)
    ensures Across(p, q, 1) == p % 16 * 16 + q / 4
  {
    var high, n := p / 16, p % 16 * 16 + q / 4;
    assert 64 * p + q == 4 * (256 * high + n) + q % 4;
    assert (4 * (256 * high + n) + q % 4) / 4 == 256 * high + n;
    EightBits(high, n);
  }

  lemma AcrossThird(p: sextet, q: sextet)
    ensures Across(p, q, 2) == p % 4 * 64 + q
  {
    assert 64 * p + q == 256 * (p / 4) + (p % 4 * 64 + q);
    EightBits(p / 4, p % 4 * 64 + q);
  }

  lemma {:induction false} DecodedGroup(d: seq<byte>, k: nat)
    requires 1 <= |d| <= 4 && k < |d| - 1
    ensures DecodeGroup(d)[k] == Across(Sextet(d[k]), Sextet(d[k + 1]), k)
  {
    hide Sextet, Number, BytesOf, Across;
    var p, q := Sextet(d[0]), Sextet(d[1]);
    var r, u := if |d| > 2 then Sextet(d[2]) else 0, if |d| > 3 then Sextet(d[3]) else 0;
    BytesByDigits(p, q, r, u);
    AcrossDigits(p, q);
    AcrossDigits(q, r);
    AcrossDigits(r, u);
  }

  /**
   Every byte of a decoding, whatever the input: the leading characters of the alphabet are a
   string of six bits each, and byte `k` is its bits from `8 * k` on; a rest of less than eight
   bits is dropped.
   */
  lemma {:induction false} DecodedByte(s: seq<byte>, k: nat)
    requires k < |Decode(s)|
    ensures var v := Valid(s);
            && |Decode(s)| == 3 * |v| / 4 && k + k / 3 + 1 < |v|
            && Decode(s)[k] == Across(Position(v[k + k / 3]), Position(v[k + k / 3 + 1]), k % 3)
  {
    hide DecodeDigits, Valid, Across, Position;
    DecodedLength(Valid(s));
    DecodedAt(Valid(s), k);
  }

  lemma {:induction false} DecodedAt(d: seq<byte>, k: nat)
    requires k < |DecodeDigits(d)|
    ensures k + k / 3 + 1 < |d|
    ensures DecodeDigits(d)[k] == Across(Sextet(d[k + k / 3]), Sextet(d[k + k / 3 + 1]), k % 3)
    decreases |d|
  {
    hide DecodeGroup, Across, Sextet;
    DecodedLength(d);
    if |d| < 4 {
      DecodedGroup(d, k);
    } else if k < 3 {
      DecodedGroup(d[..4], k);
    } else {
      DecodedAt(d[4..], k - 3);
      Thirds(k - 3);
    }
  }

  lemma Thirds(k: nat)
    ensures (k + 3) / 3 == k / 3 + 1 && (k + 3) % 3 == k % 3
  {
  }

  lemma {:induction false} GroupRoundTrip(x: seq<byte>)
    requires 1 <= |x| <= 3
    ensures var d := EncodeGroup(x)[..|x| + 1];
            (forall i :: 0 <= i < |d| ==> IsBase64(d[i])) && DecodeGroup(d) == x
  {
    hide Alphabet, Position, Digit, BytesOf, Number, Group;
    var a, b, c := x[0], if |x| > 1 then x[1] else 0, if |x| > 2 then x[2] else 0;
    var g := Group(a, b, c);
    var d := EncodeGroup(x)[..|x| + 1];
    assert d == Characters(g, |x| + 1);
    forall k | 0 <= k < 4 ensures Position(Alphabet(Digit(g, k))) == Digit(g, k) { PositionOfAlphabet(Digit(g, k)); }
    DigitsByBytes(a, b, c);
    assert |x| < 3 ==> Digit(g, 3) == 0;
    assert |x| < 2 ==> Digit(g, 2) == 0;
    NumberOfDigits(a, b, c);
    GroupBytes(a, b, c);
    assert x == [a, b, c][..|x|];
  }

  lemma NumberOfDigits(a: byte, b: byte, c: byte)
    ensures var g := Group(a, b, c); Number(Digit(g, 0), Digit(g, 1), Digit(g, 2), Digit(g, 3)) == g
  {
    hide Digit;
    DigitsByBytes(a, b, c);
  }

  lemma {:induction false} ValidSplit(d: seq<byte>, rest: seq<byte>)
    requires forall i :: 0 <= i < |d| ==> IsBase64(d[i])
    ensures Valid(d + rest) == d + Valid(rest)
    decreases |d|
  {
    hide IsBase64;
    if d == [] {
      assert d + rest == rest;
    } else {
      assert (d + rest)[1..] == d[1..] + rest;
      ValidSplit(d[1..], rest);
    }
  }

  /** Decoding an encoding gives the bytes back. */
  lemma {:induction false} RoundTrip(x: seq<byte>)
    ensures Decode(Encode(x)) == x
    decreases |x|
  {
    hide EncodeGroup, DecodeGroup, IsBase64, Valid;
    if x == [] {
    } else if |x| < 3 {
      GroupRoundTrip(x);
      var e := EncodeGroup(x);
      var d := e[..|x| + 1];
      assert e == d + e[|x| + 1..];
      ValidSplit(d, e[|x| + 1..]);
      PaddingStops(x);
      assert d + [] == d;
    } else {
      GroupRoundTrip(x[..3]);
      var e := EncodeGroup(x[..3]);
      assert e[..4] == e;
      ValidSplit(e, Encode(x[3..]));
      RoundTrip(x[3..]);
      var v := e + Valid(Encode(x[3..]));
      assert v[..4] == e && v[4..] == Valid(Encode(x[3..]));
      assert x == x[..3] + x[3..];
    }
  }

  /** The byte at `i`, or the zero that fills the last group up. */
  function ByteOrZero(x: seq<byte>, i: nat): byte {
    if i < |x| then x[i] else 0
  }

  /** Character `i` of an encoding stands for digit i % 4 of the group of three bytes it belongs to. */
  lemma {:induction false} EncodedDigit(x: seq<byte>, i: nat)
    requires i < |Encode(x)|
    ensures var at := i / 4 * 3;
            var g := Group(ByteOrZero(x, at), ByteOrZero(x, at + 1), ByteOrZero(x, at + 2));
            Encode(x)[i] == if at + i % 4 <= |x| then Alphabet(Digit(g, i % 4)) else EQUALS
    decreases |x|
  {
    hide Alphabet, Digit, Group;
    if |x| >= 3 && i >= 4 {
      var rest := x[3..];
      EncodedDigit(rest, i - 4);
      assert (i - 4) / 4 == i / 4 - 1 && (i - 4) % 4 == i % 4;
      var at := (i - 4) / 4 * 3;
      assert ByteOrZero(rest, at) == ByteOrZero(x, at + 3);
      assert ByteOrZero(rest, at + 1) == ByteOrZero(x, at + 4);
      assert ByteOrZero(rest, at + 2) == ByteOrZero(x, at + 5);
      assert i / 4 * 3 == at + 3;
      assert EncodeGroup(x[..3])[..] + Encode(rest) == Encode(x);
    } else {
      assert i / 4 == 0 && i % 4 == i;
    }
  }

  lemma PaddingStops(x: seq<byte>)
    requires 1 <= |x| <= 2
    ensures Valid(EncodeGroup(x)[|x| + 1..]) == []
  {
    assert EncodeGroup(x)[|x| + 1..][0] == EQUALS;
  }

  /** How many characters the last group lacks. */
  function Lacking(n: nat): (k: nat)
    ensures k <= 2
    ensures n % 3 == 0 ==> k == 0
  {
    (3 - n % 3) % 3
  }

  /** From `|e| - k` on, and nowhere else, `e` has padding. */
  ghost predicate PaddedBy(e: seq<byte>, k: nat) {
    forall i :: 0 <= i < |e| ==> (e[i] == EQUALS <==> i >= |e| - k)
  }

  lemma PaddedConcat(group: seq<byte>, rest: seq<byte>, k: nat)
    requires (forall i :: 0 <= i < |group| ==> group[i] != EQUALS) && PaddedBy(rest, k) && k <= |rest|
    ensures PaddedBy(group + rest, k)
  {
  }

  /** How the padding stands: none, one or two characters, at the very end. */
  lemma {:induction false} PaddingPlace(x: seq<byte>)
    ensures PaddedBy(Encode(x), Lacking(|x|))
    decreases |x|
  {
    hide EncodeGroup, PaddedBy;
    if x == [] {
      NoneToPad();
    } else if |x| < 3 {
      NoPadding(x);
      OneGroup(x);
    } else {
      PaddingPlace(x[3..]);
      NoPadding(x[..3]);
      assert Lacking(|x|) == Lacking(|x[3..]|) <= |Encode(x[3..])|;
      PaddedConcat(EncodeGroup(x[..3]), Encode(x[3..]), Lacking(|x|));
    }
  }

  lemma NoneToPad()
    ensures PaddedBy([], Lacking(0))
  {
  }

  lemma OneGroup(x: seq<byte>)
    requires 1 <= |x| < 3 && forall i :: 0 <= i < 4 ==> (EncodeGroup(x)[i] == EQUALS <==> i > |x|)
    ensures PaddedBy(EncodeGroup(x), Lacking(|x|))
  {
    hide EncodeGroup;
  }

  lemma NotEquals(n: sextet)
    ensures Alphabet(n) != EQUALS
  {
  }

  lemma NoPadding(x: seq<byte>)
    requires 1 <= |x| <= 3
    ensures forall i :: 0 <= i < 4 ==> (EncodeGroup(x)[i] == EQUALS <==> i > |x|)
  {
    hide Group, Digit, Alphabet;
    var g := Group(x[0], if |x| > 1 then x[1] else 0, if |x| > 2 then x[2] else 0);
    var n := |x| + 1;
    assert EncodeGroup(x) == Characters(g, n) + Padding(4 - n);
    forall i | 0 <= i < 4 ensures EncodeGroup(x)[i] == EQUALS <==> i > |x| {
      if i < n {
        assert EncodeGroup(x)[i] == Alphabet(Digit(g, i));
        NotEquals(Digit(g, i));
      } else {
        assert EncodeGroup(x)[i] == Padding(4 - n)[i - n];
      }
    }
  }

  // ---------- the loops ----------

  method Base64Encode(input: seq<byte>) returns (ret: seq<byte>)
    ensures ret == Encode(input)
  {
    hide Encode, EncodeGroup;
    ret := [];
    var i := 0;
    var char_array_3 := new byte[3](_ => 0);
    var p := 0;
    assert [] + input == input && [] + Encode(input) == Encode(input);
    assert char_array_3[..0] + input[0..] == input;
    while p < |input|
      invariant 0 <= p <= |input| && 0 <= i < 3
      invariant ret + Encode(char_array_3[..i] + input[p..]) == Encode(input)
    {
      ghost var was := char_array_3[..];
      char_array_3[i] := input[p];
      Move(was, char_array_3[..], i, input, p);
      i := i + 1;
      p := p + 1;
      if i == 3 {
        var four := FourCharacters(char_array_3, 4);
        assert char_array_3[..i] == char_array_3[..];
        EncodeRound(ret, char_array_3[..], input[p..]);
        ret := ret + four;
        i := 0;
        assert char_array_3[..0] + input[p..] == input[p..];
      }
    }
    assert char_array_3[..i] + input[p..] == char_array_3[..i];
    if i != 0 {
      var part := EncodeTail(char_array_3, i);
      ret := ret + part;
    } else {
      EncodeNothing();
      assert ret + [] == ret;
    }
  }

  /** One or two bytes are left: fill the group with zeros and pad. */
  method EncodeTail(char_array_3: array<byte>, left: nat) returns (ret: seq<byte>)
    requires char_array_3.Length == 3 && 1 <= left < 3
    modifies char_array_3
    ensures ret == Encode(old(char_array_3[..left]))
  {
    hide Encode, Group;
    ghost var last := char_array_3[..left];
    for j := left to 3
      invariant char_array_3[..left] == last
      invariant forall k :: left <= k < j ==> char_array_3[k] == 0
    {
      char_array_3[j] := 0;
    }
    ret := FourCharacters(char_array_3, left + 1);
    EncodeLast(last, char_array_3[..]);
    ghost var digits := ret;
    assert digits + Padding(0) == digits;
    var i := left;
    while i < 3
      invariant left <= i <= 3 && ret == digits + Padding(i - left)
    {
      assert Padding(i - left) + [EQUALS] == Padding(i - left + 1);
      ret := ret + [EQUALS];
      i := i + 1;
    }
  }

  /** A byte moves from the rest of a sequence into the small array. */
  lemma Move(was: seq<byte>, now: seq<byte>, i: nat, rest: seq<byte>, p: nat)
    requires i < |was| == |now| && p < |rest| && now == was[i := rest[p]]
    ensures now[..i + 1] + rest[p + 1..] == was[..i] + rest[p..]
  {
  }

  lemma EncodeNothing()
    ensures Encode([]) == []
  {
  }

  lemma EncodeStep(x: seq<byte>, group: seq<byte>, rest: seq<byte>)
    requires |group| == 3 && x == group + rest
    ensures Encode(x) == Characters(Group(group[0], group[1], group[2]), 4) + Encode(rest)
  {
    hide Characters, Group;
    assert x[..3] == group && x[3..] == rest;
  }

  lemma EncodeRound(ret: seq<byte>, group: seq<byte>, rest: seq<byte>)
    requires |group| == 3
    ensures ret + Encode(group + rest)
            == (ret + Characters(Group(group[0], group[1], group[2]), 4)) + Encode([] + rest)
  {
    hide Encode, Characters, Group;
    EncodeStep(group + rest, group, rest);
    assert [] + rest == rest;
    assert ret + (Characters(Group(group[0], group[1], group[2]), 4) + Encode(rest))
           == (ret + Characters(Group(group[0], group[1], group[2]), 4)) + Encode(rest);
  }

  lemma EncodeLast(x: seq<byte>, group: seq<byte>)
    requires 1 <= |x| < 3 && |group| == 3 && group[..|x|] == x && forall k :: |x| <= k < 3 ==> group[k] == 0
    ensures Encode(x) == Characters(Group(group[0], group[1], group[2]), |x| + 1) + Padding(3 - |x|)
  {
    hide Characters, Group;
    assert x[0] == group[0] && (|x| > 1 ==> x[1] == group[1]);
  }

  /** The first `n` characters of the group in the small array. */
  method FourCharacters(char_array_3: array<byte>, n: nat) returns (ret: seq<byte>)
    requires char_array_3.Length == 3 && n <= 4
    ensures ret == Characters(Group(char_array_3[0], char_array_3[1], char_array_3[2]), n)
  {
    hide Alphabet, Digit, Group;
    var a, b, c := char_array_3[0], char_array_3[1], char_array_3[2];
    DigitsByBytes(a, b, c);
    var char_array_4: seq<sextet> := [a / 4, a % 4 * 16 + b / 16, b % 16 * 4 + c / 64, c % 64];
    ret := [];
    for j := 0 to n
      invariant ret == Characters(Group(a, b, c), j)
    {
      assert char_array_4[j] == Digit(Group(a, b, c), j);
      ret := ret + [Alphabet(char_array_4[j])];
    }
  }

  method Base64Decode(input: seq<byte>) returns (ret: seq<byte>)
    ensures ret == Decode(input)
  {
    hide Decode, Valid, IsBase64, Under;
    ret := [];
    var i := 0;
    var char_array_4 := new byte[4](_ => 0);
    var at := 0;
    ghost var target := Decode(input);
    assert input[0..] == input;
    UnderStart(char_array_4[..], input);
    while at < |input| && input[at] != EQUALS && IsBase64(input[at])
      invariant 0 <= at <= |input| && 0 <= i < 4
      invariant Under(char_array_4[..], i, input[at..], ret, target)
      decreases |input| - at
    {
      ghost var was := char_array_4[..];
      char_array_4[i] := input[at];
      UnderAdvance(was, char_array_4[..], i, input, at, ret, target);
      i := i + 1;
      at := at + 1;
      if i == 4 {
        ret := DecodeFull(ret, char_array_4, input[at..], target);
        i := 0;
      }
    }
    ValidEnd(input[at..]);
    UnderEnd(char_array_4[..], i, input[at..], ret, target);
    if i != 0 {
      var part := DecodeTail(char_array_4, i);
      ret := ret + part;
    }
  }

  /** What is decoded, the `i` characters in the small array and the rest of the input make up the target. */
  ghost predicate Under(a: seq<byte>, i: nat, rest: seq<byte>, ret: seq<byte>, target: seq<byte>) {
    && i <= |a| && (forall k :: 0 <= k < i ==> IsBase64(a[k]))
    && ret + DecodeDigits(a[..i] + Valid(rest)) == target
  }

  lemma UnderStart(a: seq<byte>, input: seq<byte>)
    ensures Under(a, 0, input, [], Decode(input))
  {
    hide Valid, DecodeDigits;
    assert a[..0] + Valid(input) == Valid(input);
    assert [] + Decode(input) == Decode(input);
  }

  /** The next valid character moves into the small array. */
  lemma UnderAdvance(was: seq<byte>, now: seq<byte>, i: nat, s: seq<byte>, at: nat, ret: seq<byte>, target: seq<byte>)
    requires i < |was| == |now| && at < |s| && IsBase64(s[at]) && now == was[i := s[at]]
    requires Under(was, i, s[at..], ret, target)
    ensures Under(now, i + 1, s[at + 1..], ret, target)
  {
    hide Valid, IsBase64, DecodeDigits;
    ValidStep(s[at..]);
    assert s[at..][1..] == s[at + 1..];
    var valid := Valid(s[at..]);
    Move(was, now, i, valid, 0);
    assert valid[0..] == valid && valid[1..] == Valid(s[at + 1..]);
  }

  /** At the end, what is left in the small array is the last group. */
  lemma UnderEnd(a: seq<byte>, i: nat, rest: seq<byte>, ret: seq<byte>, target: seq<byte>)
    requires Under(a, i, rest, ret, target) && i < 4 && i <= |a| && Valid(rest) == []
    ensures forall k :: 0 <= k < i ==> IsBase64(a[k])
    ensures target == if i == 0 then ret else ret + DecodeGroup(a[..i])
  {
    hide Valid, IsBase64, DecodeDigits, DecodeGroup;
    assert a[..i] + [] == a[..i];
    DecodeLast(a[..i]);
    assert ret + [] == ret;
  }

  /** Four characters are there. */
  method DecodeFull(before: seq<byte>, char_array_4: array<byte>, ghost rest: seq<byte>, ghost target: seq<byte>)
    returns (ret: seq<byte>)
    requires char_array_4.Length == 4 && Under(char_array_4[..], 4, rest, before, target)
    ensures Under(char_array_4[..], 0, rest, ret, target)
  {
    hide DecodeDigits, DecodeGroup, IsBase64, Valid;
    var three := ThreeBytes(char_array_4, 4);
    DecodeRound(before, char_array_4[..4], Valid(rest));
    ret := before + three;
    assert char_array_4[..][..4] == char_array_4[..4] && char_array_4[..][..0] == [];
  }

  /** Up to three characters are left: zeros stand in for the others. */
  method DecodeTail(char_array_4: array<byte>, left: nat) returns (ret: seq<byte>)
    requires char_array_4.Length == 4 && 1 <= left < 4 && forall k :: 0 <= k < left ==> IsBase64(char_array_4[k])
    modifies char_array_4
    ensures ret == DecodeGroup(old(char_array_4[..left]))
  {
    hide DecodeGroup, IsBase64;
    ghost var last := char_array_4[..left];
    for j := left to 4
      invariant char_array_4[..left] == last
      invariant forall k :: 0 <= k < left ==> IsBase64(char_array_4[k])
      invariant forall k :: left <= k < j ==> char_array_4[k] == 0
    {
      char_array_4[j] := 0;
    }
    ret := ThreeBytes(char_array_4, left);
  }

  lemma ValidStep(s: seq<byte>)
    requires s != [] && IsBase64(s[0])
    ensures Valid(s) == [s[0]] + Valid(s[1..])
  {
  }

  lemma ValidEnd(s: seq<byte>)
    requires s == [] || s[0] == EQUALS || !IsBase64(s[0])
    ensures Valid(s) == []
  {
  }

  lemma DecodeStep(d: seq<byte>, group: seq<byte>, rest: seq<byte>)
    requires |group| == 4 && d == group + rest
    ensures DecodeDigits(d) == DecodeGroup(group) + DecodeDigits(rest)
  {
    hide DecodeGroup, IsBase64;
    assert d[..4] == group && d[4..] == rest;
  }

  lemma DecodeRound(ret: seq<byte>, group: seq<byte>, rest: seq<byte>)
    requires |group| == 4
    ensures ret + DecodeDigits(group + rest) == (ret + DecodeGroup(group)) + DecodeDigits([] + rest)
  {
    hide DecodeDigits, DecodeGroup, IsBase64;
    DecodeStep(group + rest, group, rest);
    assert [] + rest == rest;
    assert ret + (DecodeGroup(group) + DecodeDigits(rest)) == (ret + DecodeGroup(group)) + DecodeDigits(rest);
  }

  lemma DecodeLast(d: seq<byte>)
    requires |d| < 4
    ensures DecodeDigits(d) == if d == [] then [] else DecodeGroup(d)
  {
  }

  /** The first `n - 1` bytes of the `n` characters in the small array, zeros after them. */
  method ThreeBytes(char_array_4: array<byte>, n: nat) returns (ret: seq<byte>)
    requires char_array_4.Length == 4 && 1 <= n <= 4
    requires forall k :: 0 <= k < n ==> IsBase64(char_array_4[k])
    requires forall k :: n <= k < 4 ==> char_array_4[k] == 0
    ensures ret == DecodeGroup(char_array_4[..n])
  {
    hide Position, Number, BytesOf;
    var p: int, q: int, r: int, t: int := Position(char_array_4[0]), Position(char_array_4[1]), Position(char_array_4[2]), Position(char_array_4[3]);
    var char_array_3 := [FirstByte(p, q), SecondByte(q, r), ThirdByte(r, t)];
    SomeDigits(p, q, r, t, n);
    ret := char_array_3[..n - 1];
  }

  /** The three bytes by mask and shift, cut to eight bits. */
  function FirstByte(p: byte, q: byte): byte {
    var n: int := p * 4 + q % 64 / 16;
    n % 256
  }

  function SecondByte(q: byte, r: byte): byte {
    var n: int := q % 16 * 16 + r % 64 / 4;
    n % 256
  }

  function ThirdByte(r: byte, t: byte): byte {
    var n: int := r % 4 * 64 + t;
    n % 256
  }

  lemma BytesOfSextets(p: sextet, q: sextet, r: sextet, t: sextet)
    ensures FirstByte(p, q) == p * 4 + q / 16 && SecondByte(q, r) == q % 16 * 16 + r / 4 && ThirdByte(r, t) == r % 4 * 64 + t
  {
    hide FirstByte, SecondByte, ThirdByte;
    FirstOfSextets(p, q);
    SecondOfSextets(q, r);
    ThirdOfSextets(r, t);
  }

  lemma FirstOfSextets(p: sextet, q: sextet)
    ensures FirstByte(p, q) == p * 4 + q / 16
  {
    assert q % 64 == q;
    assert q / 16 < 4;
  }

  lemma SecondOfSextets(q: sextet, r: sextet)
    ensures SecondByte(q, r) == q % 16 * 16 + r / 4
  {
    assert r % 64 == r;
    var low: int := q % 16;
    assert r / 4 < 16 && low < 16;
  }

  lemma ThirdOfSextets(r: sextet, t: sextet)
    ensures ThirdByte(r, t) == r % 4 * 64 + t
  {
    var low: int := r % 4;
    assert low < 4;
  }

  /** Positions of missing characters do not reach the bytes that are kept. */
  lemma SomeDigits(p: byte, q: byte, r: byte, t: byte, n: nat)
    requires 1 <= n <= 4 && p < 64 && (n > 1 ==> q < 64) && (n > 2 ==> r < 64) && (n > 3 ==> t < 64)
    ensures var g := Number(p, if n > 1 then q else 0, if n > 2 then r else 0, if n > 3 then t else 0);
            BytesOf(g)[..n - 1] == [FirstByte(p, q), SecondByte(q, r), ThirdByte(r, t)][..n - 1]
  {
    hide Number, BytesOf, FirstByte, SecondByte, ThirdByte;
    if n == 4 {
      BytesByDigits(p, q, r, t);
      BytesOfSextets(p, q, r, t);
    } else if n == 3 {
      BytesByDigits(p, q, r, 0);
      BytesOfSextets(p, q, r, 0);
    } else if n == 2 {
      BytesByDigits(p, q, 0, 0);
      BytesOfSextets(p, q, 0, 0);
    } else {
      assert BytesOf(Number(p, 0, 0, 0))[..0] == [];
    }
  }
}
