/**
 Masking of WebSocket payloads, section 5.3 of RFC 6455: the word-at-a-time forms, and the
 streaming forms with their shifted key, do to every byte what byte masking does.
 */
module FrameMask {
  import opened MachineWord
  import Bytes

  // ---------- the specification ----------

  /** The key octet for position `n`: the key repeats every four octets. */
  function Octet(key: seq<Byte>, n: nat): Byte
    requires |key| == 4
  {
    key[n % 4]
  }

  lemma OctetRepeats(key: seq<Byte>, n: nat, q: nat)
    requires |key| == 4
    ensures Octet(key, n + 4 * q) == Octet(key, n)
  {
  }

  /** Octet `i` of the payload is combined with octet `i` modulo 4 of the key. */
  function Mask(data: seq<Byte>, key: seq<Byte>, offset: nat): (r: seq<Byte>)
    requires |key| == 4
    ensures |r| == |data|
    ensures forall i :: 0 <= i < |r| ==> r[i] == Xor8(data[i], Octet(key, offset + i))
  {
    seq(|data|, i requires 0 <= i < |data| => Xor8(data[i], Octet(key, offset + i)))
  }

  /** Masking twice with one key and offset restores the payload. */
  lemma MaskTwice(data: seq<Byte>, key: seq<Byte>, offset: nat)
    requires |key| == 4
    ensures Mask(Mask(data, key, offset), key, offset) == data
  {
    hide Xor8;
    var r := Mask(data, key, offset);
    forall i | 0 <= i < |data| ensures Mask(r, key, offset)[i] == data[i] {
      XorCancels(data[i], Octet(key, offset + i));
    }
  }

  lemma MaskSplit(a: seq<Byte>, b: seq<Byte>, key: seq<Byte>, offset: nat)
    requires |key| == 4
    ensures Mask(a + b, key, offset) == Mask(a, key, offset) + Mask(b, key, offset + |a|)
  {
    hide Xor8;
  }

  /** Mask chunk after chunk, each at the offset where the one before it ended. */
  function MaskChunks(chunks: seq<seq<Byte>>, key: seq<Byte>, offset: nat): seq<Byte>
    requires |key| == 4
  {
    if chunks == [] then []
    else Mask(chunks[0], key, offset) + MaskChunks(chunks[1..], key, offset + |chunks[0]|)
  }

  /** However a payload is cut, masking the pieces in turn masks the whole. */
  lemma {:induction false} ChunksMaskTheWhole(chunks: seq<seq<Byte>>, key: seq<Byte>, offset: nat)
    requires |key| == 4
    ensures MaskChunks(chunks, key, offset) == Mask(Bytes.Concat(chunks), key, offset)
  {
    hide Mask, Xor8;
    if chunks == [] {
      assert Mask([], key, offset) == [];
    } else {
      ChunksMaskTheWhole(chunks[1..], key, offset + |chunks[0]|);
      MaskSplit(chunks[0], Bytes.Concat(chunks[1..]), key, offset);
    }
  }

  // ---------- prepared keys ----------

  /** The prepared key `w` holds the key's octets from `offset` on, twice over. */
  ghost predicate Represents(m: Machine, w: Word, key: seq<Byte>, offset: nat)
    requires |key| == 4
  {
    forall i :: 0 <= i < 8 ==> ByteAt(m, w, i) == Octet(key, offset + i)
  }

  /** The four key octets read as an integer of the machine. */
  function KeyInteger(m: Machine, key: seq<Byte>): Word
    requires |key| == 4
  {
    if m.LittleEndian? then Load(m, key + [ZERO, ZERO, ZERO, ZERO]) else Load(m, [ZERO, ZERO, ZERO, ZERO] + key)
  }

  function PrepareMaskingKey(m: Machine, key: seq<Byte>): (w: Word)
    requires |key| == 4
    ensures Represents(m, w, key, 0)
  {
    var low_bits := KeyInteger(m, key);
    var high_bits := KeyInteger(m, key);
    PreparedBytes(m, key);
    Or(ShiftLeft(high_bits, 4), low_bits)
  }

  lemma {:induction false} PreparedBytes(m: Machine, key: seq<Byte>)
    requires |key| == 4
    ensures Represents(m, Or(ShiftLeft(KeyInteger(m, key), 4), KeyInteger(m, key)), key, 0)
  {
    hide SignificantByte, Or, ShiftLeft, Load;
    var w := KeyInteger(m, key);
    var c := if m.LittleEndian? then key + [ZERO, ZERO, ZERO, ZERO] else [ZERO, ZERO, ZERO, ZERO] + key;
    forall i | 0 <= i < 8 ensures ByteAt(m, Or(ShiftLeft(w, 4), w), i) == Octet(key, 0 + i) {
      var k := if m.LittleEndian? then i else 7 - i;
      var i' := if i < 4 then i + 4 else i - 4;
      Loaded(m, c, i);
      Loaded(m, c, i');
      ShiftedLeft(w, 4, k);
      OrAt(ShiftLeft(w, 4), w, k);
    }
  }

  /** A byte address within a word, taken around the end. */
  function Wrap(i: nat): nat
    requires i < 16
    ensures i < 8 ==> Wrap(i) == i
    ensures 8 <= i ==> Wrap(i) == i - 8
  {
    i % 8
  }

  /** Rotate a prepared key by `offset` bytes. */
  function CircshiftPreparedKey(m: Machine, prepared_key: Word, offset: nat): Word
    requires offset < 8
  {
    if offset == 0 then prepared_key
    else if m.LittleEndian? then
      var temp := ShiftLeft(prepared_key, 8 - offset);
      Or(ShiftRight(prepared_key, offset), temp)
    else
      var temp := ShiftRight(prepared_key, 8 - offset);
      Or(ShiftLeft(prepared_key, offset), temp)
  }

  /** On either machine the rotation moves the byte at address i + offset to address i. */
  lemma {:induction false} CircshiftAt(m: Machine, w: Word, offset: nat, i: nat)
    requires offset < 8 && i < 8
    ensures ByteAt(m, CircshiftPreparedKey(m, w, offset), i) == ByteAt(m, w, Wrap(i + offset))
  {
    hide SignificantByte, Or, ShiftLeft, ShiftRight;
    if offset > 0 {
      if m.LittleEndian? {
        ShiftedRight(w, offset, i);
        ShiftedLeft(w, 8 - offset, i);
        OrAt(ShiftRight(w, offset), ShiftLeft(w, 8 - offset), i);
      } else {
        ShiftedLeft(w, offset, 7 - i);
        ShiftedRight(w, 8 - offset, 7 - i);
        OrAt(ShiftLeft(w, offset), ShiftRight(w, 8 - offset), 7 - i);
      }
    }
  }

  /** A shift by the length of a chunk moves the key to where the next chunk starts. */
  lemma {:induction false} ShiftMovesOffset(m: Machine, w: Word, key: seq<Byte>, offset: nat, length: nat, l: nat, q: nat)
    requires |key| == 4 && Represents(m, w, key, offset) && l < 8 && length == l + 4 * q
    ensures Represents(m, CircshiftPreparedKey(m, w, l), key, offset + length)
  {
    hide ByteAt, CircshiftPreparedKey, Octet, Wrap;
    var r := CircshiftPreparedKey(m, w, l);
    forall i | 0 <= i < 8 ensures ByteAt(m, r, i) == Octet(key, offset + length + i) {
      var k := Wrap(i + l);
      CircshiftAt(m, w, l, i);
      assert ByteAt(m, w, k) == Octet(key, offset + k);
      OctetRepeats(key, offset + k, if i + l < 8 then q else q + 2);
    }
  }

  // ---------- the loops ----------

  /**
   How far a loop has come: `now` is masked up to `i` and beyond that as `was`, and the
   input still holds what it held beyond `i`.
   */
  ghost predicate Masked(data: seq<Byte>, was: seq<Byte>, rest: seq<Byte>, now: seq<Byte>, i: nat, key: seq<Byte>, offset: nat)
  {
    && |key| == 4 && i <= |data| && |rest| == |data| && i <= |was| && |now| == |was|
    && (forall j :: 0 <= j < i ==> now[j] == Xor8(data[j], Octet(key, offset + j)))
    && (forall j :: i <= j < |now| ==> now[j] == was[j])
    && (forall j :: i <= j < |rest| ==> rest[j] == data[j])
  }

  lemma MaskedWhole(data: seq<Byte>, was: seq<Byte>, rest: seq<Byte>, now: seq<Byte>, length: nat, key: seq<Byte>, offset: nat)
    requires Masked(data, was, rest, now, length, key, offset)
    ensures now[..length] == Mask(data[..length], key, offset)
    ensures now[length..] == was[length..]
  {
    hide Xor8;
  }

  /** Byte by byte, in place when both buffers are the same. */
  method ByteMask(input: array<Byte>, output: array<Byte>, length: nat, key: seq<Byte>, key_offset: nat)
    requires |key| == 4 && length <= input.Length && length <= output.Length
    modifies output
    ensures output[..length] == Mask(old(input[..length]), key, key_offset)
    ensures output[length..] == old(output[length..])
  {
    hide Xor8;
    ghost var data, was := input[..], output[..];
    var key_index := key_offset % 4;
    var i := 0;
    while i != length
      invariant i <= length && key_index == (key_offset + i) % 4
      invariant Masked(data, was, input[..], output[..], i, key, key_offset)
      decreases length - i
    {
      output[i] := Xor8(input[i], key[key_index]);
      key_index := key_index + 1;
      key_index := key_index % 4;
      i := i + 1;
    }
    MaskedWhole(data, was, input[..], output[..], length, key, key_offset);
  }

  /** Load a word, mask it and store it. */
  method MaskWord(m: Machine, input: array<Byte>, output: array<Byte>, i: nat, prepared_key: Word,
                  ghost data: seq<Byte>, ghost was: seq<Byte>, ghost key: seq<Byte>, ghost offset: nat)
    requires Masked(data, was, input[..], output[..], i * 8, key, offset)
    requires i * 8 + 8 <= input.Length && i * 8 + 8 <= output.Length
    requires |key| == 4 && Represents(m, prepared_key, key, offset)
    modifies output
    ensures Masked(data, was, input[..], output[..], i * 8 + 8, key, offset)
  {
    hide SignificantByte, Xor, Xor8, Load, Octet, ByteAt;
    var at := i * 8;
    var word := Load(m, input[at..at + 8]);
    var masked := Xor(word, prepared_key);
    forall k | 0 <= k < 8 ensures ByteAt(m, masked, k) == Xor8(data[at + k], Octet(key, offset + (at + k))) {
      Loaded(m, input[at..at + 8], k);
      XorAt(m, word, prepared_key, k);
      OctetRepeats(key, offset + k, 2 * i);
      assert offset + (at + k) == offset + k + 4 * (2 * i);
    }
    forall k | 0 <= k < 8 {
      output[at + k] := ByteAt(m, masked, k);
    }
    forall j | at <= j < at + 8 ensures output[j] == Xor8(data[j], Octet(key, offset + j)) {
      assert ByteAt(m, masked, j - at) == Xor8(data[at + (j - at)], Octet(key, offset + (at + (j - at))));
    }
  }

  method WordMaskExact(m: Machine, input: array<Byte>, output: array<Byte>, length: nat, key: seq<Byte>)
    requires |key| == 4 && length <= input.Length && length <= output.Length
    modifies output
    ensures output[..length] == Mask(old(input[..length]), key, 0)
    ensures output[length..] == old(output[length..])
  {
    hide Xor8, ByteAt, PrepareMaskingKey;
    ghost var data, was := input[..], output[..];
    var prepared_key := PrepareMaskingKey(m, key);
    var n := length / 8;
    for i := 0 to n
      invariant Masked(data, was, input[..], output[..], i * 8, key, 0)
    {
      MaskWord(m, input, output, i, prepared_key, data, was, key, 0);
    }
    for i := n * 8 to length
      invariant Masked(data, was, input[..], output[..], i, key, 0)
    {
      output[i] := Xor8(input[i], key[i % 4]);
    }
    MaskedWhole(data, was, input[..], output[..], length, key, 0);
  }

  /**
   Mask a chunk with a prepared key, and return the key prepared for the next chunk.
   Bytes after the chunk are left alone.
   */
  method WordMaskCirc(m: Machine, input: array<Byte>, output: array<Byte>, length: nat, prepared_key: Word,
                      ghost key: seq<Byte>, ghost offset: nat)
    returns (next: Word)
    requires |key| == 4 && Represents(m, prepared_key, key, offset)
    requires length <= input.Length && length <= output.Length
    modifies output
    ensures output[..length] == Mask(old(input[..length]), key, offset)
    ensures output[length..] == old(output[length..])
    ensures Represents(m, next, key, offset + length)
  {
    hide Xor8, ByteAt, CircshiftPreparedKey, Octet, Represents, Masked;
    ghost var data, was := input[..], output[..];
    var n := length / 8;
    var l := length - n * 8;
    NothingMasked(data, was, key, offset);
    for i := 0 to n
      invariant Masked(data, was, input[..], output[..], i * 8, key, offset)
    {
      MaskWord(m, input, output, i, prepared_key, data, was, key, offset);
    }
    MaskRest(m, input, output, n, l, prepared_key, data, was, key, offset);
    MaskedWhole(data, was, input[..], output[..], length, key, offset);
    ShiftMovesOffset(m, prepared_key, key, offset, length, l, 2 * n);
    next := CircshiftPreparedKey(m, prepared_key, l);
  }

  lemma NothingMasked(data: seq<Byte>, was: seq<Byte>, key: seq<Byte>, offset: nat)
    requires |key| == 4
    ensures Masked(data, was, data, was, 0, key, offset)
  {
  }

  /** The partial word behind `n` words. */
  method MaskRest(m: Machine, input: array<Byte>, output: array<Byte>, n: nat, l: nat, prepared_key: Word,
                  ghost data: seq<Byte>, ghost was: seq<Byte>, ghost key: seq<Byte>, ghost offset: nat)
    requires l < 8 && n * 8 + l <= input.Length && n * 8 + l <= output.Length
    requires |key| == 4 && Represents(m, prepared_key, key, offset)
    requires Masked(data, was, input[..], output[..], n * 8, key, offset)
    modifies output
    ensures Masked(data, was, input[..], output[..], n * 8 + l, key, offset)
  {
    hide Xor8, ByteAt, Octet;
    var start := n * 8;
    for i := 0 to l
      invariant Masked(data, was, input[..], output[..], start + i, key, offset)
    {
      OctetRepeats(key, offset + i, 2 * n);
      assert offset + (start + i) == offset + i + 4 * (2 * n);
      output[start + i] := Xor8(input[start + i], ByteAt(m, prepared_key, i));
    }
  }

  /** The four octets that remain when a prepared key is cut to 32 bits. */
  function LowKey(m: Machine, prepared_key: Word): (c: seq<Byte>)
    ensures |c| == 4
  {
    if m.LittleEndian? then
      [SignificantByte(prepared_key, 0), SignificantByte(prepared_key, 1), SignificantByte(prepared_key, 2), SignificantByte(prepared_key, 3)]
    else
      [SignificantByte(prepared_key, 3), SignificantByte(prepared_key, 2), SignificantByte(prepared_key, 1), SignificantByte(prepared_key, 0)]
  }

  lemma LowKeyBytes(m: Machine, w: Word, key: seq<Byte>, offset: nat)
    requires |key| == 4 && Represents(m, w, key, offset)
    ensures forall i :: 0 <= i < 4 ==> LowKey(m, w)[i] == Octet(key, offset + i)
  {
    hide SignificantByte;
    forall i | 0 <= i < 4 ensures LowKey(m, w)[i] == Octet(key, offset + i) {
      assert ByteAt(m, w, i) == Octet(key, offset + i);
      assert ByteAt(m, w, i + 4) == Octet(key, offset + (i + 4));
      OctetRepeats(key, offset + i, 1);
      assert offset + (i + 4) == offset + i + 4 * 1;
    }
  }

  method ByteMaskCirc(m: Machine, input: array<Byte>, output: array<Byte>, length: nat, prepared_key: Word,
                      ghost key: seq<Byte>, ghost offset: nat)
    returns (next: Word)
    requires |key| == 4 && Represents(m, prepared_key, key, offset)
    requires length <= input.Length && length <= output.Length
    modifies output
    ensures output[..length] == Mask(old(input[..length]), key, offset)
    ensures output[length..] == old(output[length..])
    ensures Represents(m, next, key, offset + length)
  {
    hide Xor8, ByteAt, CircshiftPreparedKey, LowKey, Octet, Represents;
    ghost var data, was := input[..], output[..];
    var c := LowKey(m, prepared_key);
    LowKeyBytes(m, prepared_key, key, offset);
    for i := 0 to length
      invariant Masked(data, was, input[..], output[..], i, key, offset)
    {
      OctetRepeats(key, offset + i % 4, i / 4);
      assert offset + i == offset + i % 4 + 4 * (i / 4);
      output[i] := Xor8(input[i], c[i % 4]);
    }
    MaskedWhole(data, was, input[..], output[..], length, key, offset);
    ShiftMovesOffset(m, prepared_key, key, offset, length, length % 4, length / 4);
    next := CircshiftPreparedKey(m, prepared_key, length % 4);
  }

  // ---------- a frame whose payload arrives in pieces ----------

  /** The payload so far and the key for what comes next. */
  class FramePayload {
    const machine: Machine
    var prepared_key: Word
    var payload: seq<Byte>
    ghost const key: seq<Byte>
    /** The masked bytes that have arrived. */
    ghost var received: seq<Byte>

    ghost predicate Valid()
      reads this
    {
      |key| == 4 && Represents(machine, prepared_key, key, |received|) && payload == Mask(received, key, 0)
    }

    constructor (m: Machine, k: seq<Byte>)
      requires |k| == 4
      ensures Valid() && received == [] && key == k && machine == m
    {
      machine, key := m, k;
      prepared_key := PrepareMaskingKey(m, k);
      payload, received := [], [];
    }

    /** Unmask a piece in place, byte by byte or word by word, with the key the last one left. */
    method ProcessPayloadBytes(buf: array<Byte>, len: nat, words: bool)
      requires Valid() && len <= buf.Length
      modifies this`prepared_key, this`payload, this`received, buf
      ensures Valid() && received == old(received) + old(buf[..len])
      ensures payload == old(payload) + buf[..len] && buf[len..] == old(buf[len..])
    {
      hide Mask, Represents;
      ghost var data := buf[..len];
      if words {
        prepared_key := WordMaskCirc(machine, buf, buf, len, prepared_key, key, |received|);
      } else {
        prepared_key := ByteMaskCirc(machine, buf, buf, len, prepared_key, key, |received|);
      }
      MaskSplit(received, data, key, 0);
      assert 0 + |received| == |received|;
      received := received + data;
      payload := payload + buf[..len];
    }
  }

  /**
   The returned key threaded through a run of pieces, by either routine on each: the result is
   byte masking of the whole payload, wherever it was cut.
   */
  method MaskInTurn(m: Machine, key: seq<Byte>, chunks: seq<seq<Byte>>, words: seq<bool>) returns (result: seq<Byte>)
    requires |key| == 4 && |words| == |chunks|
    ensures result == Mask(Bytes.Concat(chunks), key, 0)
  {
    hide Mask, Bytes.Concat;
    var message := new FramePayload(m, key);
    NoChunks();
    assert chunks[..0] == [];
    for i := 0 to |chunks|
      invariant message.Valid() && message.received == Bytes.Concat(chunks[..i])
      invariant fresh(message) && message.key == key
    {
      var chunk := chunks[i];
      var buf := new Byte[|chunk|](j requires 0 <= j < |chunk| => chunk[j]);
      assert buf[..|chunk|] == chunk;
      Bytes.ConcatSnoc(chunks[..i], chunk);
      assert chunks[..i + 1] == chunks[..i] + [chunk];
      message.ProcessPayloadBytes(buf, |chunk|, words[i]);
    }
    assert chunks[..|chunks|] == chunks;
    result := message.payload;
  }

  lemma NoChunks()
    ensures Bytes.Concat<Byte>([]) == []
  {
  }
}
