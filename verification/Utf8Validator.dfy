/**
 The table-driven UTF-8 validator: it accepts exactly the byte strings that section 4 of
 RFC 3629 allows, and at every accept state its code point is the one encoded.
 */
module Utf8Validator {
  import opened Bytes
  import JsonSyntax

  const ACCEPT: nat := 0
  const REJECT: nat := 1

  // ---------- the language of RFC 3629 ----------

  predicate Between(b: byte, lo: int, hi: int) {
    lo <= b <= hi
  }

  /** UTF8-tail. */
  predicate Tail(b: byte) {
    Between(b, 0x80, 0xBF)
  }

  /** UTF8-char: one well-formed sequence. */
  predicate WellFormedChar(c: seq<byte>) {
    || (|c| == 1 && Between(c[0], 0x00, 0x7F))
    || (|c| == 2 && Between(c[0], 0xC2, 0xDF) && Tail(c[1]))
    || (|c| == 3 && Tail(c[2]) && (
          || (c[0] == 0xE0 && Between(c[1], 0xA0, 0xBF))
          || (Between(c[0], 0xE1, 0xEC) && Tail(c[1]))
          || (c[0] == 0xED && Between(c[1], 0x80, 0x9F))
          || (Between(c[0], 0xEE, 0xEF) && Tail(c[1]))))
    || (|c| == 4 && Tail(c[2]) && Tail(c[3]) && (
          || (c[0] == 0xF0 && Between(c[1], 0x90, 0xBF))
          || (Between(c[0], 0xF1, 0xF3) && Tail(c[1]))
          || (c[0] == 0xF4 && Between(c[1], 0x80, 0x8F))))
  }

  predicate AllChars(chars: seq<seq<byte>>) {
    forall i :: 0 <= i < |chars| ==> WellFormedChar(chars[i])
  }

  /** UTF8-octets: a concatenation of well-formed sequences. */
  ghost predicate WellFormed(s: seq<byte>) {
    exists chars: seq<seq<byte>> :: AllChars(chars) && Concat(chars) == s
  }

  // ---------- the table ----------

  /** Rows 0 to 15 of the table, sixteen entries each, give the class of a byte. */
  function ByteRow(r: nat): (row: seq<nat>)
    requires r < 16
    ensures |row| == 16
  {
    match r
    case 0 => [0, 0, 0, 0, 0, 0, 0, 0, 0, 0, 0, 0, 0, 0, 0, 0]
    case 1 => [0, 0, 0, 0, 0, 0, 0, 0, 0, 0, 0, 0, 0, 0, 0, 0]
    case 2 => [0, 0, 0, 0, 0, 0, 0, 0, 0, 0, 0, 0, 0, 0, 0, 0]
    case 3 => [0, 0, 0, 0, 0, 0, 0, 0, 0, 0, 0, 0, 0, 0, 0, 0]
    case 4 => [0, 0, 0, 0, 0, 0, 0, 0, 0, 0, 0, 0, 0, 0, 0, 0]
    case 5 => [0, 0, 0, 0, 0, 0, 0, 0, 0, 0, 0, 0, 0, 0, 0, 0]
    case 6 => [0, 0, 0, 0, 0, 0, 0, 0, 0, 0, 0, 0, 0, 0, 0, 0]
    case 7 => [0, 0, 0, 0, 0, 0, 0, 0, 0, 0, 0, 0, 0, 0, 0, 0]
    case 8 => [1, 1, 1, 1, 1, 1, 1, 1, 1, 1, 1, 1, 1, 1, 1, 1]
    case 9 => [9, 9, 9, 9, 9, 9, 9, 9, 9, 9, 9, 9, 9, 9, 9, 9]
    case 10 => [7, 7, 7, 7, 7, 7, 7, 7, 7, 7, 7, 7, 7, 7, 7, 7]
    case 11 => [7, 7, 7, 7, 7, 7, 7, 7, 7, 7, 7, 7, 7, 7, 7, 7]
    case 12 => [8, 8, 2, 2, 2, 2, 2, 2, 2, 2, 2, 2, 2, 2, 2, 2]
    case 13 => [2, 2, 2, 2, 2, 2, 2, 2, 2, 2, 2, 2, 2, 2, 2, 2]
    case 14 => [10, 3, 3, 3, 3, 3, 3, 3, 3, 3, 3, 3, 3, 4, 3, 3]
    case _ => [11, 6, 6, 6, 5, 8, 8, 8, 8, 8, 8, 8, 8, 8, 8, 8]
  }

  /** The rows behind them, one for each state, give the next state by class. */
  function NextRow(state: nat): (row: seq<nat>)
    requires state < 9
    ensures |row| == 16
  {
    match state
    case 0 => [0, 1, 2, 3, 5, 8, 7, 1, 1, 1, 4, 6, 1, 1, 1, 1]
    case 1 => [1, 1, 1, 1, 1, 1, 1, 1, 1, 1, 1, 1, 1, 1, 1, 1]
    case 2 => [1, 0, 1, 1, 1, 1, 1, 0, 1, 0, 1, 1, 1, 1, 1, 1]
    case 3 => [1, 2, 1, 1, 1, 1, 1, 2, 1, 2, 1, 1, 1, 1, 1, 1]
    case 4 => [1, 1, 1, 1, 1, 1, 1, 2, 1, 1, 1, 1, 1, 1, 1, 1]
    case 5 => [1, 2, 1, 1, 1, 1, 1, 1, 1, 2, 1, 1, 1, 1, 1, 1]
    case 6 => [1, 1, 1, 1, 1, 1, 1, 3, 1, 3, 1, 1, 1, 1, 1, 1]
    case 7 => [1, 3, 1, 1, 1, 1, 1, 3, 1, 3, 1, 1, 1, 1, 1, 1]
    case _ => [1, 3, 1, 1, 1, 1, 1, 1, 1, 1, 1, 1, 1, 1, 1, 1]
  }

  function Row(r: nat): (row: seq<nat>)
    requires r < 25
    ensures |row| == 16
  {
    if r < 16 then ByteRow(r) else NextRow(r - 16)
  }

  function Utf8d(i: nat): nat
    requires i < 400
  {
    Row(i / 16)[i % 16]
  }

  /** The class of a byte, by ranges. */
  function Class(b: byte): (r: nat)
    ensures r < 12
  {
    if b < 0x80 then 0
    else if b < 0x90 then 1
    else if b < 0xA0 then 9
    else if b < 0xC0 then 7
    else if b < 0xC2 then 8
    else if b < 0xE0 then 2
    else if b == 0xE0 then 10
    else if b == 0xED then 4
    else if b < 0xF0 then 3
    else if b == 0xF0 then 11
    else if b < 0xF4 then 6
    else if b == 0xF4 then 5
    else 8
  }

  lemma TableClass(b: byte)
    ensures Utf8d(b) == Class(b)
  {
    var r, k := b / 16, b % 16;
    assert b == 16 * r + k;
    if r < 8 { ZeroRows(r, k); } else { ClassRow(r, k); }
  }

  lemma ZeroRows(r: nat, k: nat)
    requires r < 8 && k < 16
    ensures ByteRow(r)[k] == 0
  {
  }

  lemma ClassRow(r: nat, k: nat)
    requires 8 <= r < 16 && k < 16
    ensures ByteRow(r)[k] == Class(16 * r + k)
  {
    if r < 12 { LowRows(r, k); } else { HighRows(r, k); }
  }

  lemma LowRows(r: nat, k: nat)
    requires 8 <= r < 12 && k < 16
    ensures ByteRow(r)[k] == Class(16 * r + k)
  {
  }

  lemma HighRows(r: nat, k: nat)
    requires 12 <= r < 16 && k < 16
    ensures ByteRow(r)[k] == Class(16 * r + k)
  {
  }

  /** The tails a state still expects, as the RFC's rows have them; 0 is between characters. */
  function Next(state: nat, class_: nat): (r: nat)
    requires state < 9 && class_ < 12
    ensures r < 9
  {
    if state == ACCEPT then
      if class_ == 0 then 0 else if class_ == 2 then 2 else if class_ == 3 then 3 else if class_ == 4 then 5
      else if class_ == 5 then 8 else if class_ == 6 then 7 else if class_ == 10 then 4 else if class_ == 11 then 6
      else REJECT
    else if state == 2 then (if class_ in {1, 7, 9} then 0 else REJECT)
    else if state == 3 then (if class_ in {1, 7, 9} then 2 else REJECT)
    else if state == 4 then (if class_ == 7 then 2 else REJECT)
    else if state == 5 then (if class_ in {1, 9} then 2 else REJECT)
    else if state == 6 then (if class_ in {7, 9} then 3 else REJECT)
    else if state == 7 then (if class_ in {1, 7, 9} then 3 else REJECT)
    else if state == 8 then (if class_ == 1 then 3 else REJECT)
    else REJECT
  }

  lemma TableNext(state: nat, class_: nat)
    requires state < 9 && class_ < 12
    ensures Utf8d(256 + state * 16 + class_) == Next(state, class_)
  {
    assert (256 + state * 16 + class_) / 16 == 16 + state && (256 + state * 16 + class_) % 16 == class_;
    StateRow(state, class_);
  }

  lemma StateRow(state: nat, class_: nat)
    requires state < 9 && class_ < 12
    ensures NextRow(state)[class_] == Next(state, class_)
  {
  }

  // ---------- the machine ----------

  datatype Decoder = Decoder(state: nat, codepoint: nat)

  const START := Decoder(ACCEPT, 0)

  /** 0xff shifted right. */
  function Shifted(n: nat): nat {
    if n == 0 then 255 else Shifted(n - 1) / 2
  }

  /** The low bits of a first byte that its class leaves to the code point. */
  function FirstBits(b: byte): nat {
    b % (Shifted(Class(b)) + 1)
  }

  /** One byte, with the code point in 32 bits. */
  function Step(d: Decoder, b: byte): (r: Decoder)
    requires d.state < 9
    ensures r.state < 9
  {
    Decoder(Next(d.state, Class(b)),
            if d.state != ACCEPT then b % 64 + d.codepoint * 64 % 0x1_0000_0000 else FirstBits(b))
  }

  function Run(d: Decoder, s: seq<byte>): (r: Decoder)
    requires d.state < 9
    ensures r.state < 9
    decreases |s|
  {
    if s == [] then d else Run(Step(d, s[0]), s[1..])
  }

  /** Feeding a string in pieces gives the same answer. */
  lemma {:induction false} RunSplit(d: Decoder, a: seq<byte>, b: seq<byte>)
    requires d.state < 9
    ensures Run(d, a + b) == Run(Run(d, a), b)
    decreases |a|
  {
    hide Step;
    if a == [] {
      assert a + b == b;
    } else {
      assert (a + b)[1..] == a[1..] + b;
      RunSplit(Step(d, a[0]), a[1..], b);
    }
  }

  /** Once rejected, always rejected. */
  lemma {:induction false} RejectIsPermanent(d: Decoder, s: seq<byte>)
    requires d.state == REJECT
    ensures Run(d, s).state == REJECT
    decreases |s|
  {
    if s != [] {
      RejectIsPermanent(Step(d, s[0]), s[1..]);
    }
  }

  // ---------- exactly the RFC's language ----------

  lemma {:induction false} ShiftedValues(k: nat)
    requires k == 1
    ensures Shifted(k) == 127 && Shifted(k + 1) == 63 && Shifted(k + 2) == 31 && Shifted(k + 3) == 15
    ensures Shifted(k + 4) == 7 && Shifted(k + 5) == 3 && Shifted(k + 9) == 0 && Shifted(k + 10) == 0
  {
    assert Shifted(k - 1) == 255;
    assert Shifted(k + 1) == 63;
    assert Shifted(k + 3) == 15;
    assert Shifted(k + 5) == 3;
    assert Shifted(k + 7) == 0;
    assert Shifted(k + 8) == 0;
  }

  /** What a first byte leaves is its value bits, for every length of sequence. */
  lemma FirstBitsOf(b: byte)
    ensures b < 0x80 ==> FirstBits(b) == b
    ensures 0xC2 <= b <= 0xDF ==> FirstBits(b) == b - 0xC0
    ensures 0xE0 <= b <= 0xEF ==> FirstBits(b) == b - 0xE0
    ensures 0xF0 <= b <= 0xF4 ==> FirstBits(b) == b - 0xF0
  {
    hide Shifted;
    ShiftedValues(1);
    assert Shifted(0) == 255 by { ShiftedZero(); }
    BitsByClass(b, Shifted(Class(b)) + 1);
  }

  lemma ShiftedZero()
    ensures Shifted(0) == 255
  {
  }

  lemma BitsByClass(b: byte, m: nat)
    requires var n := Class(b);
             m == match n case 0 => 256 case 2 => 64 case 3 => 32 case 4 => 16 case 5 => 8 case 6 => 4
                          case 10 => 1 case 11 => 1 case _ => m
    ensures m > 0 ==> b < 0x80 ==> b % m == b
    ensures m > 0 ==> 0xC2 <= b <= 0xDF ==> b % m == b - 0xC0
    ensures m > 0 ==> 0xE0 <= b <= 0xEF ==> b % m == b - 0xE0
    ensures m > 0 ==> 0xF0 <= b <= 0xF4 ==> b % m == b - 0xF0
  {
    var n := Class(b);
    if n == 0 { assert b % 256 == b; }
    else if n == 2 { assert b % 64 == b - 0xC0; }
    else if n == 3 { assert b % 32 == b - 0xE0; }
    else if n == 4 { assert b % 16 == 13; }
    else if n == 5 { assert b % 8 == 4; }
    else if n == 6 { assert b % 4 == b - 0xF0; }
    else if n == 10 { assert b % 1 == 0; }
    else if n == 11 { assert b % 1 == 0; }
  }

  lemma StepTail(d: Decoder, b: byte)
    requires d.state < 9 && d.state != ACCEPT && d.codepoint < 0x100_0000 && Tail(b)
    ensures Step(d, b).codepoint == d.codepoint * 64 + (b - 0x80)
  {
  }

  lemma {:induction false} RunOne(d: Decoder, s: seq<byte>)
    requires d.state < 9 && s != []
    ensures Run(d, s) == Run(Step(d, s[0]), s[1..])
  {
  }

  /** The first bytes of a character, one by one. */
  lemma {:induction false} RunTwo(d: Decoder, c: seq<byte>)
    requires d.state < 9 && |c| >= 2
    ensures Run(d, c) == Run(Step(Step(d, c[0]), c[1]), c[2..])
  {
    hide Step;
    RunOne(d, c);
    RunOne(Step(d, c[0]), c[1..]);
    assert c[1..][0] == c[1] && c[1..][1..] == c[2..];
  }

  /** A well-formed character takes the machine from accept back to accept, with its code point. */
  lemma {:induction false} CharAccepted(d: Decoder, c: seq<byte>)
    requires d.state == ACCEPT && WellFormedChar(c)
    ensures Run(d, c).state == ACCEPT
    ensures Run(d, c).codepoint < 0x110000 && JsonSyntax.EncodeUtf8(Run(d, c).codepoint) == c
  {
    hide Run, Step, WellFormedChar;
    CharLength(c);
    RunOne(d, c);
    if |c| == 1 {
      assert c[1..] == [];
      RunNone(Step(d, c[0]));
      OneByte(d, c);
    } else {
      RunTwo(d, c);
      var d2 := Step(Step(d, c[0]), c[1]);
      if |c| == 2 {
        assert c[2..] == [];
        RunNone(d2);
        TwoBytes(d, c);
      } else {
        RunOne(d2, c[2..]);
        assert c[2..][1..] == c[3..];
        if |c| == 3 {
          assert c[3..] == [];
          RunNone(Step(d2, c[2]));
          ThreeBytes(d, c);
        } else {
          RunOne(Step(d2, c[2]), c[3..]);
          assert c[3..][1..] == [];
          RunNone(Step(Step(d2, c[2]), c[3]));
          FourBytes(d, c);
        }
      }
    }
  }

  lemma RunNone(d: Decoder)
    requires d.state < 9
    ensures Run(d, []) == d
  {
  }

  lemma CharLength(c: seq<byte>)
    requires WellFormedChar(c)
    ensures 1 <= |c| <= 4
  {
  }

  lemma OneByte(d: Decoder, c: seq<byte>)
    requires d.state == ACCEPT && WellFormedChar(c) && |c| == 1
    ensures var r := Step(d, c[0]);
            r.state == ACCEPT && r.codepoint < 0x110000 && JsonSyntax.EncodeUtf8(r.codepoint) == c
  {
    hide FirstBits;
    FirstBitsOf(c[0]);
  }

  lemma TwoBytes(d: Decoder, c: seq<byte>)
    requires d.state == ACCEPT && WellFormedChar(c) && |c| == 2
    ensures var r := Step(Step(d, c[0]), c[1]);
            r.state == ACCEPT && r.codepoint < 0x110000 && JsonSyntax.EncodeUtf8(r.codepoint) == c
  {
    hide FirstBits;
    FirstBitsOf(c[0]);
    StepTail(Step(d, c[0]), c[1]);
  }

  lemma ThreeBytes(d: Decoder, c: seq<byte>)
    requires d.state == ACCEPT && WellFormedChar(c) && |c| == 3
    ensures var r := Step(Step(Step(d, c[0]), c[1]), c[2]);
            r.state == ACCEPT && r.codepoint < 0x110000 && JsonSyntax.EncodeUtf8(r.codepoint) == c
  {
    hide FirstBits;
    FirstBitsOf(c[0]);
    var d1 := Step(d, c[0]);
    StepTail(d1, c[1]);
    StepTail(Step(d1, c[1]), c[2]);
    ThreeByteEncoding(c[0] - 0xE0, c[1] - 0x80, c[2] - 0x80);
  }

  lemma ThreeByteEncoding(x: nat, y: nat, z: nat)
    requires x < 16 && y < 64 && z < 64 && (x == 0 ==> y >= 32)
    ensures var cp := (x * 64 + y) * 64 + z;
            0x800 <= cp < 0x10000 && JsonSyntax.EncodeUtf8(cp) == [0xE0 + x, 0x80 + y, 0x80 + z]
  {
    Quotients(0, x, y, z);
  }

  lemma FourBytes(d: Decoder, c: seq<byte>)
    requires d.state == ACCEPT && WellFormedChar(c) && |c| == 4
    ensures var r := Step(Step(Step(Step(d, c[0]), c[1]), c[2]), c[3]);
            r.state == ACCEPT && r.codepoint < 0x110000 && JsonSyntax.EncodeUtf8(r.codepoint) == c
  {
    hide FirstBits;
    FirstBitsOf(c[0]);
    var d1 := Step(d, c[0]);
    StepTail(d1, c[1]);
    var d2 := Step(d1, c[1]);
    StepTail(d2, c[2]);
    StepTail(Step(d2, c[2]), c[3]);
    FourByteEncoding(c[0] - 0xF0, c[1] - 0x80, c[2] - 0x80, c[3] - 0x80);
  }

  lemma FourByteEncoding(w: nat, x: nat, y: nat, z: nat)
    requires w < 5 && x < 64 && y < 64 && z < 64 && (w == 0 ==> x >= 16) && (w == 4 ==> x < 16)
    ensures var cp := ((w * 64 + x) * 64 + y) * 64 + z;
            0x10000 <= cp < 0x110000 && JsonSyntax.EncodeUtf8(cp) == [0xF0 + w, 0x80 + x, 0x80 + y, 0x80 + z]
  {
    var cp := ((w * 64 + x) * 64 + y) * 64 + z;
    Quotients(w, x, y, z);
    assert 0x10000 <= cp < 0x110000;
  }

  lemma Quotients(w: nat, x: nat, y: nat, z: nat)
    requires x < 64 && y < 64 && z < 64
    ensures var cp := ((w * 64 + x) * 64 + y) * 64 + z;
            cp / 0x40000 == w && cp / 0x1000 % 64 == x && cp / 64 % 64 == y && cp % 64 == z
  {
    var a := w * 64 + x;
    var b := a * 64 + y;
    var cp := b * 64 + z;
    assert cp / 64 == b && b / 64 == a && a / 64 == w;
    assert cp == 0x1000 * a + (64 * y + z);
    assert cp == 0x40000 * w + (0x1000 * x + 64 * y + z);
  }

  /** From accept, whatever is accepted starts with a well-formed character. */
  lemma {:induction false} AcceptedStartsWithChar(d: Decoder, s: seq<byte>) returns (n: nat)
    requires d.state == ACCEPT && s != [] && Run(d, s).state == ACCEPT
    ensures 1 <= n <= |s| && WellFormedChar(s[..n])
  {
    hide Run, Step;
    n := 1;
    RunOne(d, s);
    var d1 := Step(d, s[0]);
    StepState(d, s[0]);
    if d1.state == ACCEPT { return; }
    Continues(d1, s[1..]);
    var d2 := Step(d1, s[1]);
    StepState(d1, s[1]);
    n := 2;
    if d2.state == ACCEPT { return; }
    RunOne(d1, s[1..]);
    assert s[1..][1..] == s[2..];
    Continues(d2, s[2..]);
    var d3 := Step(d2, s[2]);
    StepState(d2, s[2]);
    n := 3;
    if d3.state == ACCEPT { return; }
    RunOne(d2, s[2..]);
    assert s[2..][1..] == s[3..];
    Continues(d3, s[3..]);
    StepState(d3, s[3]);
    n := 4;
  }

  lemma StepState(d: Decoder, b: byte)
    requires d.state < 9
    ensures Step(d, b).state == Next(d.state, Class(b))
  {
  }

  /** In the middle of a character there is a next byte, and it is not rejected. */
  lemma {:induction false} Continues(d: Decoder, s: seq<byte>)
    requires d.state < 9 && d.state != ACCEPT && Run(d, s).state == ACCEPT
    ensures s != [] && d.state != REJECT && Step(d, s[0]).state != REJECT
  {
    hide Step;
    if d.state == REJECT {
      RejectIsPermanent(d, s);
    } else if s != [] && Step(d, s[0]).state == REJECT {
      RejectIsPermanent(Step(d, s[0]), s[1..]);
    }
  }

  lemma {:induction false} CharsAccepted(d: Decoder, chars: seq<seq<byte>>)
    requires d.state == ACCEPT && AllChars(chars)
    ensures Run(d, Concat(chars)).state == ACCEPT
    decreases |chars|
  {
    hide Run, WellFormedChar;
    if chars == [] {
      RunNone(d);
    } else {
      CharAccepted(d, chars[0]);
      RunSplit(d, chars[0], Concat(chars[1..]));
      CharsAccepted(Run(d, chars[0]), chars[1..]);
    }
  }

  lemma {:induction false} AcceptedIsChars(d: Decoder, s: seq<byte>) returns (chars: seq<seq<byte>>)
    requires d.state == ACCEPT && Run(d, s).state == ACCEPT
    ensures AllChars(chars) && Concat(chars) == s
    decreases |s|
  {
    hide Run, WellFormedChar;
    if s == [] {
      chars := [];
    } else {
      var n := AcceptedStartsWithChar(d, s);
      CharAccepted(d, s[..n]);
      assert s == s[..n] + s[n..];
      RunSplit(d, s[..n], s[n..]);
      var rest := AcceptedIsChars(Run(d, s[..n]), s[n..]);
      chars := [s[..n]] + rest;
    }
  }

  /** The machine accepts exactly the strings that RFC 3629 calls well-formed. */
  lemma {:induction false} AcceptsExactlyUtf8(s: seq<byte>)
    ensures Run(START, s).state == ACCEPT <==> WellFormed(s)
  {
    hide Run;
    if Run(START, s).state == ACCEPT {
      var chars := AcceptedIsChars(START, s);
    }
    if WellFormed(s) {
      var chars: seq<seq<byte>> :| AllChars(chars) && Concat(chars) == s;
      CharsAccepted(START, chars);
    }
  }

  /** After any well-formed text and one more character, the code point is that character's. */
  lemma {:induction false} CodepointAtAccept(s: seq<byte>, c: seq<byte>)
    requires WellFormed(s) && WellFormedChar(c)
    ensures var r := Run(START, s + c);
            r.state == ACCEPT && r.codepoint < 0x110000 && JsonSyntax.EncodeUtf8(r.codepoint) == c
  {
    hide Run, WellFormedChar;
    AcceptsExactlyUtf8(s);
    RunSplit(START, s, c);
    CharAccepted(Run(START, s), c);
  }

  /** What the JSON parser writes for an escaped character is well-formed. */
  lemma {:induction false} EncodedIsWellFormed(cp: nat)
    requires cp < 0x110000 && !(0xD800 <= cp <= 0xDFFF)
    ensures WellFormedChar(JsonSyntax.EncodeUtf8(cp))
  {
    hide WellFormedChar, JsonSyntax.EncodeUtf8;
    var w, x, y, z := Groups(cp);
    if cp < 0x800 {
      ShortWellFormed(cp);
    } else if cp < 0x10000 {
      ThreeByteEncoding(x, y, z);
      ThreeWellFormed(x, y, z);
    } else {
      FourByteEncoding(w, x, y, z);
      FourWellFormed(w, x, y, z);
    }
  }

  /** A code point in groups of six bits. */
  lemma Groups(cp: nat) returns (w: nat, x: nat, y: nat, z: nat)
    requires cp < 0x110000 && !(0xD800 <= cp <= 0xDFFF)
    ensures cp == ((w * 64 + x) * 64 + y) * 64 + z && x < 64 && y < 64 && z < 64
    ensures 0x800 <= cp < 0x10000 ==> w == 0 && x < 16 && (x == 0 ==> y >= 32) && (x == 13 ==> y < 32)
    ensures 0x10000 <= cp ==> w < 5 && (w == 0 ==> x >= 16) && (w == 4 ==> x < 16)
  {
    var b := cp / 64;
    var a := b / 64;
    w, x, y, z := a / 64, a % 64, b % 64, cp % 64;
    assert cp == 64 * b + z && b == 64 * a + y && a == 64 * w + x;
  }

  lemma ShortWellFormed(cp: nat)
    requires cp < 0x800
    ensures WellFormedChar(JsonSyntax.EncodeUtf8(cp))
  {
  }

  lemma ThreeWellFormed(x: nat, y: nat, z: nat)
    requires x < 16 && y < 64 && z < 64 && (x == 0 ==> y >= 32) && (x == 13 ==> y < 32)
    ensures WellFormedChar([0xE0 + x, 0x80 + y, 0x80 + z])
  {
  }

  lemma FourWellFormed(w: nat, x: nat, y: nat, z: nat)
    requires w < 5 && x < 64 && y < 64 && z < 64 && (w == 0 ==> x >= 16) && (w == 4 ==> x < 16)
    ensures WellFormedChar([0xF0 + w, 0x80 + x, 0x80 + y, 0x80 + z])
  {
  }

  /** The code points of Unicode that are no surrogates. */
  predicate IsScalar(cp: nat) {
    cp < 0x110000 && !(0xD800 <= cp <= 0xDFFF)
  }

  lemma SurrogateIllFormed(cp: nat)
    requires 0xD800 <= cp <= 0xDFFF
    ensures !WellFormedChar(JsonSyntax.EncodeUtf8(cp))
  {
    assert JsonSyntax.EncodeUtf8(cp)[0] == 0xED && JsonSyntax.EncodeUtf8(cp)[1] >= 0xA0;
  }

  /** A sequence is well-formed exactly when it encodes a code point that is no surrogate. */
  lemma {:induction false} WellFormedMeans(c: seq<byte>)
    ensures WellFormedChar(c) <==> exists cp :: IsScalar(cp) && JsonSyntax.EncodeUtf8(cp) == c
  {
    hide WellFormedChar, JsonSyntax.EncodeUtf8, Run;
    if WellFormedChar(c) {
      CharAccepted(START, c);
      var cp := Run(START, c).codepoint;
      if 0xD800 <= cp <= 0xDFFF { SurrogateIllFormed(cp); }
      assert IsScalar(cp) && JsonSyntax.EncodeUtf8(cp) == c;
    }
    if cp :| IsScalar(cp) && JsonSyntax.EncodeUtf8(cp) == c {
      EncodedIsWellFormed(cp);
    }
  }

  lemma {:induction false} JsonEscapeIsUtf8(c: seq<byte>, p: nat, e: nat)
    requires p <= e < |c| && JsonSyntax.Utf16At(c, p, e).Unit?
    ensures WellFormedChar(JsonSyntax.EncodeUtf8(JsonSyntax.Utf16At(c, p, e).codepoint))
  {
    hide WellFormedChar, JsonSyntax.Utf16At, JsonSyntax.EncodeUtf8;
    EncodedIsWellFormed(JsonSyntax.Utf16At(c, p, e).codepoint);
  }

  // ---------- the validator ----------

  class Validator {
    var m_state: nat
    var m_codepoint: nat

    ghost predicate Valid()
      reads this
    {
      m_state < 9
    }

    ghost function Now(): Decoder
      reads this
    {
      Decoder(m_state, m_codepoint)
    }

    constructor ()
      ensures Valid() && Now() == START
    {
      m_state, m_codepoint := ACCEPT, 0;
    }

    /** The step of the state machine, from the table. */
    method DecodeByte(b: byte) returns (state: nat)
      requires Valid()
      modifies this
      ensures Valid() && Now() == Step(old(Now()), b) && state == m_state
    {
      hide Utf8d, Class, Next, Shifted;
      TableClass(b);
      TableNext(m_state, Class(b));
      var type_ := Utf8d(b);
      m_codepoint := if m_state != ACCEPT then b % 64 + m_codepoint * 64 % 0x1_0000_0000
                     else b % (Shifted(type_) + 1);
      m_state := Utf8d(256 + m_state * 16 + type_);
      state := m_state;
    }

    method Consume(b: byte) returns (ok: bool)
      requires Valid()
      modifies this
      ensures Valid() && Now() == Step(old(Now()), b) && (ok <==> m_state != REJECT)
    {
      var state := DecodeByte(b);
      ok := state != REJECT;
    }

    /** Feed bytes until the end or the first error. */
    method Decode(s: seq<byte>) returns (ok: bool)
      requires Valid()
      modifies this
      ensures Valid() && m_state == Run(old(Now()), s).state
      ensures ok <==> m_state != REJECT || s == []
      ensures ok ==> Now() == Run(old(Now()), s)
    {
      hide Step;
      assert s[0..] == s;
      for i := 0 to |s|
        invariant Valid() && Run(Now(), s[i..]) == Run(old(Now()), s)
        invariant i == 0 || m_state != REJECT
        invariant i == 0 ==> Now() == old(Now())
      {
        assert s[i..][1..] == s[i + 1..];
        var result := DecodeByte(s[i]);
        if result == REJECT {
          RejectIsPermanent(Now(), s[i + 1..]);
          return false;
        }
      }
      ok := true;
    }

    predicate Complete()
      reads this
    {
      m_state == ACCEPT
    }

    method Reset()
      modifies this
      ensures Valid() && Now() == START
    {
      m_state, m_codepoint := ACCEPT, 0;
    }
  }

  method Validate(s: seq<byte>) returns (ok: bool)
    ensures ok <==> WellFormed(s)
  {
    hide Run, WellFormed;
    AcceptsExactlyUtf8(s);
    RunNone(START);
    var v := new Validator();
    var fine := v.Decode(s);
    if !fine {
      return false;
    }
    ok := v.Complete();
  }
}
