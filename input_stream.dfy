/** The read stream open() hands back: it keeps the socket of the open request, and for every
    read writes a control line "position:length" and takes the bytes the server sends back. */
module InputStream {
  import opened Outcomes
  import opened JavaText
  import opened Wire
  import Paths

  /** The control line a read writes: the stream position, ':', the requested length. */
  function ControlLine(position: int, length: int): string
  {
    DecimalString(position) + ":" + DecimalString(length)
  }

  /** How the server reads a control line: two longs on either side of the first ':'. */
  function ParseControl(line: string): Option<(int, int)>
  {
    match SplitRename(line)
    case None => None
    case Some((p, n)) =>
      match (ParseLong(p), ParseLong(n))
      case (Some(position), Some(length)) => Some((position, length))
      case _ => None
  }

  /** The server reads back the position and length the client put in a control line. */
  lemma ControlLineRoundTrip(position: int, length: int)
    requires IsLong(position) && IsLong(length)
    ensures ParseControl(ControlLine(position, length)) == Some((position, length))
  {
    var p := DecimalString(position);
    assert ':' !in p by {
      forall i | 0 <= i < |p| ensures p[i] != ':' {
        assert IsDigit(p[i]) || p[i] == '-';
      }
    }
    RenamePayloadRoundTrip(p, DecimalString(length));
    ParseLongOfDecimal(position);
    ParseLongOfDecimal(length);
  }

  function Min(a: int, b: int): int { if a <= b then a else b }

  /** The array a with `bytes` written over it from index `at` on. */
  function Overwrite(a: seq<bv8>, at: int, bytes: seq<bv8>): (r: seq<bv8>)
    requires 0 <= at && at + |bytes| <= |a|
    ensures |r| == |a|
  {
    a[..at] + bytes + a[at + |bytes|..]
  }

  /** Each element of an overwritten array: one of the bytes inside the window, the old
      element outside it. */
  lemma OverwriteAt(a: seq<bv8>, at: int, bytes: seq<bv8>, i: int)
    requires 0 <= at && at + |bytes| <= |a| && 0 <= i < |a|
    ensures Overwrite(a, at, bytes)[i] == if at <= i < at + |bytes| then bytes[i - at] else a[i]
  {
  }

  /** Overwriting with one byte is updating that element. */
  lemma OverwriteOne(a: seq<bv8>, at: int, x: bv8)
    requires 0 <= at < |a|
    ensures Overwrite(a, at, [x]) == a[at := x]
  {
    forall i | 0 <= i < |a| ensures Overwrite(a, at, [x])[i] == a[at := x][i] {
      OverwriteAt(a, at, [x], i);
    }
  }

  /** Writing the first byte of `bytes` and then the next n - 1 right after it is writing the
      first n at once. */
  lemma OverwriteAdjacent(a: seq<bv8>, at: int, bytes: seq<bv8>, n: int)
    requires 1 <= n <= |bytes| && 0 <= at && at + n <= |a|
    ensures Overwrite(Overwrite(a, at, bytes[..1]), at + 1, bytes[1..][..n - 1]) == Overwrite(a, at, bytes[..n])
  {
    var one := Overwrite(a, at, bytes[..1]);
    var l := Overwrite(one, at + 1, bytes[1..][..n - 1]);
    var r := Overwrite(a, at, bytes[..n]);
    forall i | 0 <= i < |a| ensures l[i] == r[i] {
      OverwriteAt(one, at + 1, bytes[1..][..n - 1], i);
      OverwriteAt(a, at, bytes[..1], i);
      OverwriteAt(a, at, bytes[..n], i);
    }
  }

  /** What one read(b, off, length) does: its result (or the exception it throws), how many
      bytes it takes from the socket (they land in b from `off` on), the position afterwards,
      and whether it wrote a control line. */
  datatype ReadOutcome = ReadOutcome(result: Result<int>, taken: nat, position: int, sentLine: bool)

  /** read(b, off, length) on a stream at `position` with `incoming` waiting on the socket; `bLen`
      is the length of b, None when b is null (a Java array has at most IntMax elements). The code as written: after the first byte it adds
      one to off and then subtracts the new off from length, so the second socket read asks for
      length - off - 1 bytes (and throws IndexOutOfBoundsException when that is negative), and
      it adds that read's result to the count even when it is -1 (end of stream). */
  function ReadStep(position: int, incoming: seq<bv8>, bLen: Option<nat>, off: int, length: int): (o: ReadOutcome)
    requires IsLong(position) && (bLen.Some? ==> bLen.value <= IntMax)
    ensures o.taken <= |incoming|
    ensures o.taken > 0 ==> bLen.Some? && 0 <= off && o.taken <= length <= bLen.value - off
  {
    if bLen.None? || off < 0 || length < 0 || length > bLen.value - off then
      ReadOutcome(Err(Fault), 0, position, false)
    else if length == 0 then ReadOutcome(Ok(0), 0, position, false)
    else if incoming == [] then ReadOutcome(Ok(-1), 0, position, true)
    else if length == 1 then ReadOutcome(Ok(1), 1, AddLong(position, 1), true)
    else
      var inner := length - (off + 1);
      if inner < 0 then ReadOutcome(Err(Fault), 1, position, true)
      else if inner == 0 then ReadOutcome(Ok(1), 1, AddLong(position, 1), true)
      else if |incoming| == 1 then ReadOutcome(Ok(0), 1, AddLong(position, 0), true)
      else
        var k := Min(inner, |incoming| - 1);
        ReadOutcome(Ok(1 + k), 1 + k, AddLong(position, 1 + k), true)
  }

  /** What every read keeps to, whatever its arguments: a control line goes out exactly for a
      valid request of at least one byte; the bytes taken are stored inside b[off..off + length];
      a positive count is the number of bytes taken; -1 means the socket was already at its end;
      the position moves by the count it returns and by nothing else; what it throws is a
      runtime exception. It throws exactly for a null b, a window outside b, and (from the second
      socket read) an offset at or past a length of two or more with bytes waiting; a valid read
      of length 0 returns 0. */
  lemma ReadStepKeeps(position: int, incoming: seq<bv8>, bLen: Option<nat>, off: int, length: int)
    requires IsLong(position) && (bLen.Some? ==> bLen.value <= IntMax)
    ensures var o := ReadStep(position, incoming, bLen, off, length);
      && (o.sentLine <==> bLen.Some? && 0 <= off && 0 < length <= bLen.value - off)
      && (o.result.Ok? && o.result.value > 0 ==> o.taken == o.result.value)
      && (o.result.Ok? ==> -1 <= o.result.value <= length)
      && (o.result == Ok(-1) <==> o.sentLine && incoming == [])
      && (o.result.Ok? && o.result.value >= 0 ==> o.position == AddLong(position, o.result.value))
      && (!(o.result.Ok? && o.result.value >= 0) ==> o.position == position)
      && (o.result.Err? ==> o.result.failure == Fault)
      && (o.result.Err? <==> bLen.None? || off < 0 || length < 0 || length > bLen.value - off
                             || (incoming != [] && 2 <= length <= off))
      && (bLen.Some? && 0 <= off && length == 0 && length <= bLen.value - off ==> o.result == Ok(0))
  {
  }

  /** From offset 0 a read behaves as a stream read should: it takes as many bytes as are
      waiting, up to the length asked for, and advances the position by that many. */
  lemma ReadFromStart(position: int, incoming: seq<bv8>, bLen: nat, length: int)
    requires IsLong(position) && 0 < length <= bLen <= IntMax && incoming != [] && (length >= 2 ==> |incoming| >= 2)
    ensures var n := Min(length, |incoming|);
      ReadStep(position, incoming, Some(bLen), 0, length) == ReadOutcome(Ok(n), n, AddLong(position, n), true)
  {
  }

  /** With an offset at or past the length, a read of two or more bytes throws
      IndexOutOfBoundsException from the second socket read, after the first byte was taken
      from the socket and stored, and without moving the position. */
  lemma ReadPastWindowThrows(position: int, incoming: seq<bv8>, bLen: nat, off: int, length: int)
    requires IsLong(position) && 2 <= length <= off && off + length <= bLen <= IntMax && incoming != []
    ensures ReadStep(position, incoming, Some(bLen), off, length) == ReadOutcome(Err(Fault), 1, position, true)
  {
  }

  /** With a positive offset below the length, a read takes at most length - off bytes, fewer
      than were asked for even when more are waiting. */
  lemma ReadShortAtOffset(position: int, incoming: seq<bv8>, bLen: nat, off: int, length: int)
    requires IsLong(position) && 0 < off < length && off + length <= bLen <= IntMax && incoming != []
    ensures ReadStep(position, incoming, Some(bLen), off, length).taken <= length - off
  {
  }

  /** When the socket runs dry after the first byte, a read of two or more bytes stores that
      byte but returns 0 and leaves the position where it was. */
  lemma ReadEndAfterFirstByte(position: int, b: bv8, bLen: nat, off: int, length: int)
    requires IsLong(position) && 0 <= off && off + 1 < length && off + length <= bLen <= IntMax
    ensures ReadStep(position, [b], Some(bLen), off, length) == ReadOutcome(Ok(0), 1, position, true)
  {
  }

  /** The client end of a read stream. `incoming` stands for the bytes the server has put on
      the socket that the stream has not read yet; `sent` is every control line written. */
  class AdamFSInputStream {
    const defaultName: string
    const fileLength: int
    var position: int
    var incoming: seq<bv8>
    var sent: seq<string>

    /** position and the file length are Java longs. */
    predicate Valid()
      reads this
    {
      IsLong(position) && IsLong(fileLength)
    }

    constructor (defaultName: string, incoming: seq<bv8>, fileLength: int)
      requires IsLong(fileLength)
      ensures Valid()
      ensures this.defaultName == defaultName && this.fileLength == fileLength
      ensures position == 0 && this.incoming == incoming && sent == []
    {
      this.defaultName := defaultName;
      this.fileLength := fileLength;
      position := 0;
      this.incoming := incoming;
      sent := [];
    }

    /** The socket's own read(b, off, len): it checks its arguments, returns 0 for len 0 and -1
        when nothing is left, and otherwise copies as many waiting bytes as fit, up to len. */
    method Receive(b: array<bv8>, off: int, len: int) returns (n: Result<int>)
      modifies this`incoming, b
      ensures off < 0 || len < 0 || len > b.Length - off ==>
        n == Err(Fault) && incoming == old(incoming) && b[..] == old(b[..])
      ensures 0 <= off && 0 <= len <= b.Length - off && (len == 0 || old(incoming) == []) ==>
        n == Ok(if len == 0 then 0 else -1) && incoming == old(incoming) && b[..] == old(b[..])
      ensures 0 <= off && 0 < len <= b.Length - off && old(incoming) != [] ==>
        var k := Min(len, |old(incoming)|);
        && n == Ok(k) && incoming == old(incoming)[k..]
        && b[..] == Overwrite(old(b[..]), off, old(incoming)[..k])
    {
      if off < 0 || len < 0 || len > b.Length - off {
        return Err(Fault);
      }
      if len == 0 {
        return Ok(0);
      }
      if incoming == [] {
        return Ok(-1);
      }
      var k := Min(len, |incoming|);
      var i := 0;
      while i < k
        invariant incoming == old(incoming)
        invariant 0 <= i <= k
        invariant b[..] == Overwrite(old(b[..]), off, incoming[..i])
      {
        b[off + i] := incoming[i];
        i := i + 1;
      }
      incoming := incoming[k..];
      n := Ok(k);
    }

    /** read(b, off, length), as ReadStep describes it: the control line, the bytes, the count. */
    method Read(b: array?<bv8>, off: int, length: int) returns (r: Result<int>)
      requires Valid() && (b != null ==> b.Length <= IntMax)
      modifies this`position, this`incoming, this`sent, b
      ensures Valid()
      ensures var o := ReadStep(old(position), old(incoming), if b == null then None else Some(b.Length), off, length);
        && r == o.result && position == o.position
        && incoming == old(incoming)[o.taken..]
        && sent == old(sent) + (if o.sentLine then [ControlLine(old(position), length)] else [])
        && (b != null && o.taken == 0 ==> b[..] == old(b[..]))
        && (b != null && o.taken > 0 ==> b[..] == Overwrite(old(b[..]), off, old(incoming)[..o.taken]))
    {
      if b == null {
        return Err(Fault);
      } else if off < 0 || length < 0 || length > b.Length - off {
        return Err(Fault);
      } else if length == 0 {
        return Ok(0);
      }
      sent := sent + [ControlLine(position, length)];
      r := Transfer(b, off, length);
    }

    /** The part of read(b, off, length) after the control line: the first byte on its own, then
        one socket read for the rest, with the offset and length arithmetic of the code. */
    method Transfer(b: array<bv8>, off: int, length: int) returns (r: Result<int>)
      requires Valid() && b.Length <= IntMax && 0 <= off && 0 < length <= b.Length - off
      modifies this`position, this`incoming, b
      ensures Valid()
      ensures var o := ReadStep(old(position), old(incoming), Some(b.Length), off, length);
        && r == o.result && position == o.position
        && incoming == old(incoming)[o.taken..]
        && (o.taken == 0 ==> b[..] == old(b[..]))
        && (o.taken > 0 ==> b[..] == Overwrite(old(b[..]), off, old(incoming)[..o.taken]))
    {
      ghost var o := ReadStep(position, incoming, Some(b.Length), off, length);
      if incoming == [] {
        return Ok(-1);
      }
      ghost var before := b[..];
      ghost var waiting := incoming;
      var c := incoming[0];
      incoming := incoming[1..];
      b[off] := c;
      assert b[..] == before[off := c];
      OverwriteOne(before, off, c);
      assert waiting[..1] == [c];
      var i := 1;
      if length > 1 {
        var next := off + i;
        var rest := length - next;
        var n := Receive(b, next, rest);
        if n.Err? {
          assert o.taken == 1;
          return n;
        }
        i := i + n.value;
        if n.value > 0 {
          assert o.taken == i;
          OverwriteAdjacent(before, off, waiting, i);
          assert incoming == waiting[i..];
        } else {
          assert o.taken == 1;
        }
      }
      position := AddLong(position, i);
      r := Ok(i);
    }

    /** read(): -1 at or past the file length; otherwise a one-byte read, the byte as 0..255. */
    method ReadByte() returns (r: Result<int>)
      requires Valid()
      modifies this`position, this`incoming, this`sent
      ensures Valid()
      ensures old(position) >= fileLength ==>
        r == Ok(-1) && position == old(position) && incoming == old(incoming) && sent == old(sent)
      ensures old(position) < fileLength ==> sent == old(sent) + [ControlLine(old(position), 1)]
      ensures old(position) < fileLength && old(incoming) == [] ==>
        r == Ok(-1) && position == old(position) && incoming == []
      ensures old(position) < fileLength && old(incoming) != [] ==>
        && r == Ok(old(incoming)[0] as int) && 0 <= r.value < 256
        && position == AddLong(old(position), 1) && incoming == old(incoming)[1..]
    {
      if position >= fileLength {
        return Ok(-1);
      }
      var buf := new bv8[1];
      var ret := Read(buf, 0, 1);
      if ret.Err? || ret.value == -1 {
        return ret;
      }
      r := Ok(buf[0] as int);
    }

    /** read(b): read(b, 0, b.length); a null b throws. */
    method ReadInto(b: array?<bv8>) returns (r: Result<int>)
      requires Valid() && (b != null ==> b.Length <= IntMax)
      modifies this`position, this`incoming, this`sent, b
      ensures Valid()
      ensures b == null ==> r == Err(Fault) && unchanged(this)
      ensures b != null ==>
        var o := ReadStep(old(position), old(incoming), Some(b.Length), 0, b.Length);
        && r == o.result && position == o.position && incoming == old(incoming)[o.taken..]
        && sent == old(sent) + (if o.sentLine then [ControlLine(old(position), b.Length)] else [])
        && (o.taken == 0 ==> b[..] == old(b[..]))
        && (o.taken > 0 ==> b[..] == Overwrite(old(b[..]), 0, old(incoming)[..o.taken]))
    {
      if b == null {
        return Err(Fault);
      }
      r := Read(b, 0, b.Length);
    }

    /** read(position, buffer, offset, length): seek to the position, then an ordinary read. */
    method PositionalRead(at: int, b: array?<bv8>, off: int, length: int) returns (r: Result<int>)
      requires Valid() && IsLong(at) && (b != null ==> b.Length <= IntMax)
      modifies this`position, this`incoming, this`sent, b
      ensures Valid()
      ensures var o := ReadStep(at, old(incoming), if b == null then None else Some(b.Length), off, length);
        && r == o.result && position == o.position && incoming == old(incoming)[o.taken..]
        && sent == old(sent) + (if o.sentLine then [ControlLine(at, length)] else [])
        && (b != null && o.taken == 0 ==> b[..] == old(b[..]))
        && (b != null && o.taken > 0 ==> b[..] == Overwrite(old(b[..]), off, old(incoming)[..o.taken]))
    {
      position := at;
      r := Read(b, off, length);
    }

    /** seek(pos): the next read starts at pos; nothing is sent. */
    method Seek(pos: int)
      requires Valid() && IsLong(pos)
      modifies this`position
      ensures Valid() && position == pos
    {
      position := pos;
    }

    /** getPos(). */
    method GetPos() returns (pos: int)
      requires Valid()
      ensures IsLong(pos) && pos == position
    {
      pos := position;
    }

    /** The stream's own makeAbsolute, the same three cases as the filesystem's. */
    function MakeAbsolute(f: Option<string>): (r: string)
      ensures f.None? ==> r == "/"
      ensures f.Some? && defaultName <= f.value ==> defaultName + r == f.value
      ensures f.Some? && !(defaultName <= f.value) ==> r == f.value
    {
      Paths.MakeAbsolute(f, defaultName)
    }
  }
}
