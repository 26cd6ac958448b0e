/**
 The in-memory log: a byte ring in shared memory that log lines are written to and that a
 flush hands to the log file. Whatever was written, a flush emits the last bytes of it.
 */
module LogRing {
  import opened Bytes

  /** Size of the shared memory object, its header and what is left for log bytes. */
  const OBJECT: int := 0x8_0000
  const HEADER: int := 164
  const REGION: int := OBJECT - HEADER
  const MAX_FILE_SIZE: int := 0x8_0000

  /** A 32-bit signed integer after wrap-around. */
  function Wrap32(n: int): (r: int)
    ensures -0x8000_0000 <= r < 0x8000_0000
  {
    (n + 0x8000_0000) % 0x1_0000_0000 - 0x8000_0000
  }

  /** The last `n` bytes of `h`, or all of it. */
  function Last(h: seq<byte>, n: nat): (r: seq<byte>)
    ensures |r| == if |h| < n then |h| else n
    ensures r == h[|h| - |r|..]
  {
    if |h| <= n then h else h[|h| - n..]
  }

  lemma LastAppend(h: seq<byte>, x: seq<byte>, n: nat)
    ensures Last(h + x, n) == Last(Last(h, n) + x, n)
  {
    hide Last;
    var k := |h| - |Last(h, n)|;
    assert Last(h, n) + x == (h + x)[k..];
    var a, b := Last(h + x, n), Last(Last(h, n) + x, n);
    assert |a| == |b|;
    assert b == (h + x)[k..][|h| - k + |x| - |b|..] == a;
  }

  /** The bytes of the lines a ring with room for `n` bytes takes: a longer line is ignored. */
  function Accepted(lines: seq<seq<byte>>, n: nat): seq<byte> {
    if lines == [] then []
    else
      var line := lines[|lines| - 1];
      Accepted(lines[..|lines| - 1], n) + if |line| <= n then line else []
  }

  lemma NothingAccepted()
    ensures Accepted([], REGION) == []
  {
  }

  lemma AcceptedSnoc(lines: seq<seq<byte>>, line: seq<byte>, n: nat)
    ensures Accepted(lines + [line], n) == if |line| <= n then Accepted(lines, n) + line else Accepted(lines, n)
  {
    assert (lines + [line])[..|lines|] == lines;
    assert Accepted(lines, n) + [] == Accepted(lines, n);
  }

  /** What is left of a run of lines when every line drops all but the last `n` bytes. */
  function KeptOf(lines: seq<seq<byte>>, n: nat): seq<byte> {
    if lines == [] then []
    else
      var kept, line := KeptOf(lines[..|lines| - 1], n), lines[|lines| - 1];
      if |line| <= n then Last(kept + line, n) else kept
  }

  /** Over any run of lines, dropping as one goes keeps the last bytes of everything accepted. */
  lemma {:induction false} KeptIsLast(lines: seq<seq<byte>>, n: nat)
    ensures KeptOf(lines, n) == Last(Accepted(lines, n), n)
    decreases |lines|
  {
    hide Last;
    if lines == [] {
      assert Last([], n) == [];
    } else {
      var line := lines[|lines| - 1];
      var all := Accepted(lines[..|lines| - 1], n);
      KeptIsLast(lines[..|lines| - 1], n);
      LastAppend(all, line, n);
      assert all + [] == all;
    }
  }

  lemma ConcatNone()
    ensures Concat<byte>([]) == []
  {
  }

  // ---------- the ring as a pure sequence ----------

  /** `m` after a copy of `bytes` to offset `o`. */
  ghost function Splice(m: seq<byte>, o: nat, bytes: seq<byte>): (r: seq<byte>)
    requires o + |bytes| <= |m|
    ensures |r| == |m|
  {
    m[..o] + bytes + m[o + |bytes|..]
  }

  /**
   The log bytes in `m`, whose first `h` bytes are the header, in the order they were
   written, up to the write offset `w`.
   */
  ghost function Held(m: seq<byte>, h: nat, w: int, wrapped: bool): (r: seq<byte>)
    requires h <= w <= |m|
    ensures |r| == if wrapped then |m| - h else w - h
  {
    if wrapped then m[w..] + m[h..w] else m[h..w]
  }

  lemma SpliceAt(m: seq<byte>, o: nat, bytes: seq<byte>)
    requires o + |bytes| <= |m|
    ensures var r := Splice(m, o, bytes); r[..o] == m[..o] && r[o..o+|bytes|] == bytes && r[o + |bytes|..] == m[o+|bytes|..]
  {
  }

  lemma WriteAcrossTheEnd(m: seq<byte>, h: nat, w: int, wrapped: bool, x: seq<byte>)
    requires h <= w <= |m| && |m| - w < |x| <= |m| - h
    ensures var e := |m| - w;
            Held(Splice(Splice(m, w, x[..e]), h, x[e..]), h, h + |x| - e, true)
            == Last(Held(m, h, w, wrapped) + x, |m| - h)
  {
    hide Splice, Held;
    var e := |m| - w;
    var w' := h + |x| - e;
    SpliceTwice(m, h, w, x[..e], x[e..]);
    assert x == x[..e] + x[e..];
    var held := Held(m, h, w, wrapped);
    HeldTail(m, h, w, w', wrapped);
    assert Last(held + x, |m| - h) == held[|held| - (w - w')..] + x;
    assert (m[w'..w] + x[..e]) + x[e..] == m[w'..w] + x;
  }

  lemma SpliceTwice(m: seq<byte>, h: nat, w: int, x: seq<byte>, y: seq<byte>)
    requires h + |y| <= w && w + |x| == |m|
    ensures Held(Splice(Splice(m, w, x), h, y), h, h + |y|, true) == (m[h + |y|..w] + x) + y
  {
    hide Splice;
    var m1 := Splice(m, w, x);
    SpliceAt(m, w, x);
    SpliceAt(m1, h, y);
    assert m1[h + |y|..] == m[h + |y|..w] + x by {
      assert m1 == m1[..w] + m1[w..w + |x|];
    }
  }

  lemma HeldTail(m: seq<byte>, h: nat, w: int, w': int, wrapped: bool)
    requires h <= w' <= w <= |m|
    ensures var held := Held(m, h, w, wrapped); |held| >= w - w' && held[|held| - (w - w')..] == m[w'..w]
  {
  }

  lemma WriteInside(m: seq<byte>, h: nat, w: int, wrapped: bool, x: seq<byte>)
    requires h <= w && w + |x| <= |m|
    ensures Held(Splice(m, w, x), h, w + |x|, wrapped) == Last(Held(m, h, w, wrapped) + x, |m| - h)
  {
    var m' := Splice(m, w, x);
    assert m'[h..w + |x|] == m[h..w] + x;
    if wrapped {
      assert m'[w + |x|..] == m[w + |x|..] == m[w..][|x|..];
      assert Held(m', h, w + |x|, wrapped) == (Held(m, h, w, wrapped) + x)[|x|..];
    }
  }

  /** What a flush that stands at `from` with `n` bytes to go still has to emit. */
  ghost function Pending(m: seq<byte>, h: nat, from: int, n: int): seq<byte>
    requires h <= from <= |m| && 0 <= n <= |m| - h
  {
    if from + n <= |m| then m[from..from + n] else m[from..] + m[h..h + from + n - |m|]
  }

  lemma PendingAll(m: seq<byte>, h: nat, w: int, wrapped: bool)
    requires h <= w <= |m| && (wrapped ==> h < w)
    ensures Held(m, h, w, wrapped) == if wrapped then Pending(m, h, w, |m| - h) else Pending(m, h, h, w - h)
  {
  }

  lemma PendingRound(m: seq<byte>, h: nat, from: int, n: int, k: int)
    requires h <= from <= |m| && 0 <= k <= n <= |m| - h && k <= |m| - from
    ensures Pending(m, h, from, n) == m[from..from + k] + Pending(m, h, from + k, n - k)
  {
  }

  lemma PendingFromEnd(m: seq<byte>, h: nat, n: int)
    requires h <= |m| && 0 < n <= |m| - h
    ensures Pending(m, h, |m|, n) == Pending(m, h, h, n)
  {
  }

  lemma PendingNone(m: seq<byte>, h: nat, from: int)
    requires h <= from <= |m|
    ensures Pending(m, h, from, 0) == []
  {
  }

  lemma Empty(m: seq<byte>, h: nat)
    requires h <= |m|
    ensures Held(m, h, h, false) == [] && Last([], |m| - h) == [] && Wrap32(0) == 0
  {
  }

  // ---------- the ring ----------

  class Ring {
    var readOff: int
    var writeOff: int
    var wrapped: bool
    var logSize: int
    /** The shared memory object; its first bytes are the header's. */
    const memory: array<byte>
    /** The lines offered since the last flush. */
    ghost var lines: seq<seq<byte>>

    /** Everything accepted since the last flush. */
    ghost function History(): seq<byte>
      reads this`lines
    {
      Accepted(lines, REGION)
    }

    /** The log bytes there are, in the order they were written. */
    ghost function Contents(): seq<byte>
      reads this`writeOff, this`wrapped, memory
      requires memory.Length == OBJECT && HEADER <= writeOff <= OBJECT
    {
      Held(memory[..], HEADER, writeOff, wrapped)
    }

    ghost predicate Valid()
      reads this, memory
    {
      && memory.Length == OBJECT && HEADER <= writeOff <= OBJECT
      && (if wrapped then readOff == writeOff && HEADER < writeOff else readOff == HEADER)
      && wrapped == (|History()| > REGION)
      && Contents() == Last(History(), REGION)
      && logSize == Wrap32(|History()|)
    }

    constructor ()
      ensures Valid() && lines == [] && fresh(memory)
    {
      readOff, writeOff, wrapped, logSize := HEADER, HEADER, false, 0;
      memory := new byte[OBJECT];
      lines := [];
    }

    method CopyTo(offset: nat, bytes: seq<byte>)
      requires offset + |bytes| <= memory.Length
      modifies memory
      ensures memory[..] == Splice(old(memory[..]), offset, bytes)
    {
      forall i | 0 <= i < |bytes| {
        memory[offset + i] := bytes[i];
      }
    }

    /** Write one line; a line larger than the whole region is ignored. */
    method Write(line: seq<byte>)
      requires Valid()
      modifies this, memory
      ensures Valid() && lines == old(lines) + [line]
      ensures History() == if |line| <= REGION then old(History()) + line else old(History())
    {
      hide Valid, Accepted;
      AcceptedSnoc(lines, line, REGION);
      Opened();
      var pos := |line|;
      if pos <= REGION {
        AcceptLine(line);
      }
      lines := lines + [line];
      Closed();
    }

    /** The fields after a line that is not too long, for the history `h` so far. */
    method AcceptLine(line: seq<byte>)
      requires Valid() && |line| <= REGION
      modifies this`readOff, this`writeOff, this`wrapped, this`logSize, memory
      ensures Consistent(|old(History()) + line|) && Contents() == Last(old(History()) + line, REGION)
    {
      hide Contents, History, Last, Wrap32, Valid;
      Opened();
      var pos := |line|;
      ghost var h := History();
      LastAppend(h, line, REGION);
      WrapAdds(|h|, pos);
      ghost var total, w := |h|, writeOff;
      assert |h + line| == total + pos;
      logSize := Wrap32(logSize + pos);
      var nBytesToEnd := OBJECT - writeOff;
      if nBytesToEnd >= pos {
        WriteHere(line);
      } else {
        WriteAround(line);
      }
      assert Consistent(total + pos);
    }

    /** The fields for a history of `total` bytes. */
    ghost predicate Consistent(total: nat)
      reads this`readOff, this`writeOff, this`wrapped, this`logSize
    {
      && memory.Length == OBJECT && HEADER <= writeOff <= OBJECT && logSize == Wrap32(total)
      && if wrapped then readOff == writeOff && HEADER < writeOff && total > REGION
         else readOff == HEADER && writeOff - HEADER == total
    }

    /** What validity says. */
    lemma Opened()
      requires Valid()
      ensures Consistent(|History()|) && Contents() == Last(History(), REGION)
    {
      hide History, Wrap32;
    }

    lemma Closed()
      requires Consistent(|History()|) && Contents() == Last(History(), REGION)
      ensures Valid()
    {
      hide History, Wrap32, Contents, Last;
    }

    method WriteHere(line: seq<byte>)
      requires memory.Length == OBJECT && HEADER <= writeOff <= OBJECT - |line|
      modifies this`writeOff, this`readOff, memory
      ensures writeOff == old(writeOff) + |line| && readOff == if wrapped then writeOff else old(readOff)
      ensures Contents() == Last(old(Contents()) + line, REGION)
    {
      hide Held, Splice, Last;
      ghost var m, w := memory[..], writeOff;
      WriteInside(m, HEADER, w, wrapped, line);
      CopyTo(writeOff, line);
      writeOff := writeOff + |line|;
      assert memory[..] == Splice(m, w, line);
      if wrapped {
        // once wrapped, both offsets are the same
        readOff := writeOff;
      }
    }

    /** Copy the line, but wrap back to the beginning. */
    method WriteAround(line: seq<byte>)
      requires memory.Length == OBJECT && HEADER <= writeOff <= OBJECT && OBJECT - writeOff < |line| <= REGION
      modifies this`writeOff, this`readOff, this`wrapped, memory
      ensures wrapped && readOff == writeOff && HEADER < writeOff <= OBJECT
      ensures Contents() == Last(old(Contents()) + line, REGION)
    {
      hide Held, Splice, Last;
      var nBytesToEnd := OBJECT - writeOff;
      WriteAcrossTheEnd(memory[..], HEADER, writeOff, wrapped, line);
      CopyTo(writeOff, line[..nBytesToEnd]);
      CopyTo(HEADER, line[nBytesToEnd..]);
      wrapped := true;
      writeOff := HEADER + |line| - nBytesToEnd;
      readOff := writeOff;
    }

    /**
     Hand the log to the file in rounds and start afresh. `rounds` are the pieces written,
     none of them empty; `dropped` is the figure in the message about lost bytes.
     */
    method Flush() returns (rounds: seq<seq<byte>>, dropped: Option<int>)
      requires Valid()
      modifies this
      ensures Valid() && lines == []
      ensures Concat(rounds) == Last(old(History()), REGION) == KeptOf(old(lines), REGION)
      ensures |Concat(rounds)| == if |old(History())| < 524_124 then |old(History())| else 524_124
      ensures |rounds| <= 2 && forall i :: 0 <= i < |rounds| ==> 0 < |rounds[i]| <= MAX_FILE_SIZE
      ensures dropped == if |old(History())| > REGION then Some(Wrap32(|old(History())| - REGION)) else None
    {
      hide Contents, History, Last, Wrap32, Pending, Valid, KeptOf;
      Opened();
      KeptIsHistory();
      ghost var total := |History()|;
      var n;
      n, dropped := BytesToFlush(total);
      rounds := Emit(n);
      Reset();
    }

    /** The shared header says how many bytes there are, and how many were lost. */
    method BytesToFlush(ghost total: nat) returns (n: int, dropped: Option<int>)
      requires Consistent(total)
      ensures 0 <= n <= REGION && Pending(memory[..], HEADER, readOff, n) == Contents()
      ensures dropped == if total > REGION then Some(Wrap32(total - REGION)) else None
    {
      hide Held, Wrap32, Pending;
      PendingAll(memory[..], HEADER, writeOff, wrapped);
      if wrapped {
        WrapAdds(total, -REGION);
        n, dropped := REGION, Some(Wrap32(logSize - REGION));
      } else {
        WrapExact(total);
        n, dropped := logSize, None;
      }
    }

    lemma KeptIsHistory()
      ensures KeptOf(lines, REGION) == Last(History(), REGION)
    {
      hide KeptOf, Last;
      KeptIsLast(lines, REGION);
    }

    /** Done flushing. */
    method Reset()
      requires memory.Length == OBJECT
      modifies this
      ensures Valid() && lines == []
    {
      hide Held, Last, Wrap32, Valid, Accepted;
      readOff, writeOff, wrapped, logSize := HEADER, HEADER, false, 0;
      lines := [];
      Empty(memory[..], HEADER);
      NothingAccepted();
      Closed();
    }

    /** One round of the flush loop: up to the end of the memory, from its start when already there. */
    method EmitRound(n: int) returns (piece: seq<byte>)
      requires memory.Length == OBJECT && HEADER <= readOff <= OBJECT && 0 < n <= REGION
      modifies this`readOff
      ensures HEADER <= readOff <= OBJECT && 0 < |piece| <= n && |piece| <= MAX_FILE_SIZE
      ensures old(Pending(memory[..], HEADER, readOff, n)) == piece + Pending(memory[..], HEADER, readOff, n - |piece|)
      ensures |piece| == n || (readOff == OBJECT && old(readOff) != OBJECT)
    {
      hide Pending;
      ghost var m := memory[..];
      var nBytesThisRound := if n < MAX_FILE_SIZE then n else MAX_FILE_SIZE;
      var nBytesToEnd := OBJECT - readOff;
      if nBytesToEnd == 0 {
        PendingFromEnd(m, HEADER, n);
        nBytesToEnd := REGION;
        readOff := HEADER;
      }
      if nBytesThisRound > nBytesToEnd {
        nBytesThisRound := nBytesToEnd;
      }
      piece := memory[readOff..readOff + nBytesThisRound];
      PendingRound(m, HEADER, readOff, n, nBytesThisRound);
      assert piece == m[readOff..readOff + nBytesThisRound];
      readOff := readOff + nBytesThisRound;
    }

    /** The flush loop: write pieces to the file until `n` bytes are out. */
    method Emit(n: int) returns (rounds: seq<seq<byte>>)
      requires memory.Length == OBJECT && HEADER <= readOff <= OBJECT && 0 <= n <= REGION
      modifies this`readOff
      ensures Concat(rounds) == old(Pending(memory[..], HEADER, readOff, n))
      ensures |rounds| <= 2 && forall i :: 0 <= i < |rounds| ==> 0 < |rounds[i]| <= MAX_FILE_SIZE
    {
      hide Pending, Concat;
      var nBytesToFlush := n;
      ghost var m := memory[..];
      ghost var all := Pending(m, HEADER, readOff, n);
      ConcatNone();
      assert [] + all == all;
      rounds := [];
      while nBytesToFlush > 0
        invariant 0 <= nBytesToFlush <= REGION && HEADER <= readOff <= OBJECT
        invariant Concat(rounds) + Pending(m, HEADER, readOff, nBytesToFlush) == all
        invariant forall i :: 0 <= i < |rounds| ==> 0 < |rounds[i]| <= MAX_FILE_SIZE
        invariant |rounds| <= 2 && (nBytesToFlush > 0 ==> |rounds| == 0 || (|rounds| == 1 && readOff == OBJECT))
      {
        ghost var before := Pending(m, HEADER, readOff, nBytesToFlush);
        var piece := EmitRound(nBytesToFlush);
        nBytesToFlush := nBytesToFlush - |piece|;
        ConcatSnoc(rounds, piece);
        assert Concat(rounds) + before == (Concat(rounds) + piece) + Pending(m, HEADER, readOff, nBytesToFlush);
        rounds := rounds + [piece];
      }
      PendingNone(m, HEADER, readOff);
    }
  }

  lemma WrapAdds(n: int, k: int)
    ensures Wrap32(Wrap32(n) + k) == Wrap32(n + k)
  {
  }

  lemma WrapExact(n: int)
    ensures Wrap32(n) == n <==> -0x8000_0000 <= n < 0x8000_0000
  {
  }

  /** The reported number of lost bytes is right exactly while it fits the integer it is kept in. */
  lemma DroppedFigure(total: nat)
    requires total > REGION
    ensures Wrap32(total - REGION) == total - REGION <==> total < REGION + 0x8000_0000
  {
    WrapExact(total - REGION);
  }

}
