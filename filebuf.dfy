/**
 * The in-memory file buffers of src/file.cpp and the two File loops that
 * read through a buffer, getline and all.  A buffer is a cursor `pos` over
 * bytes; getc answers EOF (-1) past the end, seek clamps, read copies at
 * most what is left.  The bytes a read copies out are returned as a
 * sequence instead of being written through a pointer.
 */
module FileBuffers {
  import Common

  type byte = Common.byte

  const EOF: int := -1

  /** Bytes File::all asks for per read (the size of its static buffer). */
  const ChunkSize: nat := 65536

  /** The `mode` argument of seek: SEEK_SET, SEEK_CUR or SEEK_END. */
  datatype SeekMode = Set | Cur | End

  function Min(a: int, b: int): int {
    if a < b then a else b
  }

  function Max(a: int, b: int): int {
    if a < b then b else a
  }

  /** The position a seek offset is relative to: `start`, the cursor or the end. */
  function Anchor(mode: SeekMode, start: nat, cur: nat, end: nat): nat {
    match mode
    case Set => start
    case Cur => cur
    case End => end
  }

  /** The two range checks of a seek: below `lo` gives `lo`, above `hi` gives `hi`. */
  function Clamp(t: int, lo: nat, hi: nat): (r: nat)
    requires lo <= hi
    ensures lo <= r <= hi
    ensures lo <= t <= hi ==> r == t
  {
    if t < lo then lo else if t > hi then hi else t
  }

  /**
   * The cursor SubFileBuffer::seek settles on (file.cpp:192-208).  The
   * target is a signed 64-bit value compared with the unsigned `start_`
   * and `end_`, so a negative target turns into a huge unsigned one and
   * lands on `end_`.
   */
  function SubTarget(t: int, start: nat, end: nat): nat
    requires start <= end
  {
    if t < 0 then end else Clamp(t, start, end)
  }

  lemma SubTargetRange(t: int, start: nat, end: nat)
    requires start <= end
    ensures start <= SubTarget(t, start, end) <= end
    ensures 0 <= t ==> SubTarget(t, start, end) == Clamp(t, start, end)
    ensures t < 0 ==> SubTarget(t, start, end) == end
  {
  }

  /** The byte at `k` as getc returns it, or EOF past the end. */
  function ByteAt(data: seq<byte>, k: nat): (c: int)
    ensures k < |data| ==> c == data[k] as int
    ensures k >= |data| ==> c == EOF
  {
    if k < |data| then data[k] as int else EOF
  }

  /** A read-only buffer over `data` (MemFileBuffer, file.cpp:101-161). */
  class MemFileBuffer {
    const data: seq<byte>
    var pos: nat

    ghost predicate Valid()
      reads this
    {
      pos <= |data|
    }

    constructor (bytes: seq<byte>)
      ensures Valid() && data == bytes && pos == 0
    {
      data := bytes;
      pos := 0;
    }

    method Getc() returns (c: int)
      requires Valid()
      modifies this
      ensures Valid()
      ensures c == ByteAt(data, old(pos))
      ensures pos == if old(pos) < |data| then old(pos) + 1 else old(pos)
    {
      if pos < |data| {
        c := data[pos] as int;
        pos := pos + 1;
      } else {
        c := EOF;
      }
    }

    /** putc ignores its argument: the buffer is read-only. */
    method Putc(c: int)
      requires Valid()
      ensures Valid()
    {
    }

    function Tell(): nat
      reads this
    {
      pos
    }

    function Size(): nat {
      |data|
    }

    method Seek(offset: int, mode: SeekMode)
      requires Valid()
      modifies this
      ensures Valid()
      ensures pos == Clamp(offset + Anchor(mode, 0, old(pos), |data|), 0, |data|)
    {
      var target := offset + Anchor(mode, 0, pos, |data|);
      if target < 0 {
        target := 0;
      }
      if target > |data| {
        target := |data|;
      }
      pos := target;
    }

    /** Copies min(n, size - pos) bytes from the cursor and moves past them. */
    method Read(n: nat) returns (r: seq<byte>)
      requires Valid()
      modifies this
      ensures Valid()
      ensures |r| == Min(n, |data| - old(pos))
      ensures r == data[old(pos)..old(pos) + |r|]
      ensures pos == old(pos) + |r|
    {
      var count := n;
      if count + pos > |data| {
        count := |data| - pos;
      }
      r := [];
      if count > 0 {
        r := data[pos..pos + count];
        pos := pos + count;
      }
    }

    /** write stores nothing and reports 0 bytes written. */
    method Write(p: seq<byte>) returns (written: nat)
      requires Valid()
      ensures Valid()
      ensures written == 0
    {
      written := 0;
    }
  }

  /**
   * A window [start, end) of another buffer (SubFileBuffer,
   * file.cpp:167-226).  The inner buffer's cursor follows the window's
   * cursor, stopping at the inner buffer's own end.
   */
  class SubFileBuffer {
    const file: MemFileBuffer
    const start: nat
    const end: nat
    var pos: nat

    ghost predicate Valid()
      reads this, file
    {
      file.Valid() && start <= pos <= end && file.pos == Min(pos, |file.data|)
    }

    constructor (f: MemFileBuffer, offset: nat, size: nat)
      requires f.Valid()
      modifies f
      ensures Valid()
      ensures file == f && start == offset && end == offset + size && pos == offset
    {
      file := f;
      start := offset;
      end := offset + size;
      pos := offset;
      new;
      f.Seek(offset, Set);
    }

    /** EOF once the window is used up; past the inner end the cursor still moves. */
    method Getc() returns (c: int)
      requires Valid()
      modifies this, file
      ensures Valid()
      ensures old(pos) >= end ==> c == EOF && pos == old(pos)
      ensures old(pos) < end ==> c == ByteAt(file.data, old(pos)) && pos == old(pos) + 1
    {
      if pos >= end {
        return EOF;
      }
      pos := pos + 1;
      c := file.Getc();
    }

    function Tell(): (t: nat)
      reads this, file
      requires Valid()
      ensures t + start == pos
    {
      pos - start
    }

    function Size(): (s: nat)
      reads this, file
      requires Valid()
      ensures s + start == end
    {
      end - start
    }

    method Seek(offset: int, mode: SeekMode)
      requires Valid()
      modifies this, file
      ensures Valid()
      ensures pos == SubTarget(offset + Anchor(mode, start, old(pos), end), start, end)
    {
      var target := offset + Anchor(mode, start, pos, end);
      if target < 0 {
        target := end;
      }
      if target < start {
        target := start;
      }
      if target > end {
        target := end;
      }
      pos := target;
      file.Seek(pos, Set);
    }

    /** A read truncated at the window's end and at the inner buffer's end. */
    method Read(n: nat) returns (r: seq<byte>)
      requires Valid()
      modifies this, file
      ensures Valid()
      ensures |r| == Max(0, Min(Min(n, end - old(pos)), |file.data| - old(pos)))
      ensures |r| > 0 ==> r == file.data[old(pos)..old(pos) + |r|]
      ensures pos == old(pos) + |r|
    {
      var count := n;
      if count + pos > end {
        count := end - pos;
      }
      r := [];
      if count > 0 {
        r := file.Read(count);
        pos := pos + |r|;
      }
    }

    method Write(p: seq<byte>) returns (written: nat)
      requires Valid()
      ensures Valid()
      ensures written == 0
    {
      written := 0;
    }
  }

  // ---------------------------------------------------------------- MemoryBuffer

  /**
   * The allocation reserve arrives at (file.cpp:297-300): double while below
   * `grow`, else add `grow`, until `need` bytes fit.
   */
  function Grown(alloc: nat, grow: nat, need: nat): (r: nat)
    requires alloc > 0 && grow > 0
    ensures r >= need && r >= alloc
    decreases need - alloc
  {
    if alloc >= need then alloc
    else Grown(if alloc < grow then 2 * alloc else alloc + grow, grow, need)
  }

  /** The allocation covers the need, never shrinks, and overshoots by less than max(need, grow). */
  lemma {:induction false} GrownBounds(alloc: nat, grow: nat, need: nat)
    requires alloc > 0 && grow > 0
    ensures Grown(alloc, grow, need) >= need
    ensures Grown(alloc, grow, need) >= alloc
    ensures alloc < need ==> Grown(alloc, grow, need) < need + Max(need, grow)
    decreases need - alloc
  {
    if alloc < need {
      GrownBounds(if alloc < grow then 2 * alloc else alloc + grow, grow, need);
    }
  }

  /** `c` with `p` written over it at `at`, growing it when `p` runs past its end. */
  function Overwrite(c: seq<byte>, at: nat, p: seq<byte>): (r: seq<byte>)
    requires at <= |c|
    ensures |r| == Max(|c|, at + |p|)
  {
    c[..at] + p + (if at + |p| < |c| then c[at + |p|..] else [])
  }

  lemma OverwriteShape(c: seq<byte>, at: nat, p: seq<byte>)
    requires at <= |c|
    ensures |Overwrite(c, at, p)| == Max(|c|, at + |p|)
    ensures Overwrite(c, at, p)[..at] == c[..at]
    ensures Overwrite(c, at, p)[at..at + |p|] == p
    ensures forall k :: at + |p| <= k < |c| ==> Overwrite(c, at, p)[k] == c[k]
  {
    var r := Overwrite(c, at, p);
    assert r[..at] == c[..at];
    assert r[at..at + |p|] == p;
  }

  /** A growable write buffer (MemoryBuffer, file.cpp:232-315). */
  class MemoryBuffer {
    var data: array<byte>
    var pos: nat
    var size: nat
    const grow: nat

    ghost predicate Valid()
      reads this
    {
      0 < data.Length && 0 < grow && pos <= size <= data.Length
    }

    /** The bytes written so far. */
    ghost function Contents(): seq<byte>
      reads this, data
      requires Valid()
    {
      data[..size]
    }

    constructor (initial: nat, growBy: nat)
      requires initial > 0 && growBy > 0
      ensures Valid() && fresh(data)
      ensures data.Length == initial && grow == growBy && pos == 0 && size == 0
    {
      data := new byte[initial](_ => 0);
      grow := growBy;
      pos := 0;
      size := 0;
    }

    method Getc() returns (c: int)
      requires Valid()
      modifies this
      ensures Valid() && data == old(data) && size == old(size)
      ensures c == ByteAt(Contents(), old(pos))
      ensures pos == if old(pos) < size then old(pos) + 1 else old(pos)
    {
      if pos < size {
        c := data[pos] as int;
        pos := pos + 1;
      } else {
        c := EOF;
      }
    }

    function Tell(): nat
      reads this
    {
      pos
    }

    function Size(): nat
      reads this
    {
      size
    }

    method Seek(offset: int, mode: SeekMode)
      requires Valid()
      modifies this
      ensures Valid() && data == old(data) && size == old(size)
      ensures pos == Clamp(offset + Anchor(mode, 0, old(pos), size), 0, size)
    {
      var target := offset + Anchor(mode, 0, pos, size);
      if target < 0 {
        target := 0;
      }
      if target > size {
        target := size;
      }
      pos := target;
    }

    method Read(n: nat) returns (r: seq<byte>)
      requires Valid()
      modifies this
      ensures Valid() && data == old(data) && size == old(size)
      ensures |r| == Min(n, size - old(pos))
      ensures r == Contents()[old(pos)..old(pos) + |r|]
      ensures pos == old(pos) + |r|
    {
      var count := n;
      if count + pos > size {
        count := size - pos;
      }
      r := [];
      if count > 0 {
        r := data[pos..pos + count];
        assert r == data[..size][pos..pos + count];
        pos := pos + count;
      }
    }

    /**
     * Makes room for n bytes at the cursor and moves the cursor past them;
     * `at` is where the caller may write them.  A larger array keeps the
     * first `size` bytes.
     */
    method Reserve(n: nat) returns (at: nat)
      requires Valid()
      modifies this
      ensures Valid()
      ensures at == old(pos) && pos == old(pos) + n && size == Max(old(size), pos)
      ensures data.Length == Grown(old(data.Length), grow, pos)
      ensures data[..old(size)] == old(data[..size])
      ensures data == old(data) || fresh(data)
    {
      at := pos;
      var need := pos + n;
      if need > data.Length {
        var alloc := data.Length;
        while alloc < need
          invariant 0 < alloc
          invariant Grown(alloc, grow, need) == Grown(data.Length, grow, need)
          decreases need - alloc
        {
          if alloc < grow {
            alloc := 2 * alloc;
          } else {
            alloc := alloc + grow;
          }
        }
        var temp := new byte[alloc](_ => 0);
        forall k | 0 <= k < size {
          temp[k] := data[k];
        }
        data := temp;
      }
      pos := need;
      if pos > size {
        size := pos;
      }
    }

    /** Copies p at the cursor, growing the buffer as needed, and returns |p|. */
    method Write(p: seq<byte>) returns (written: nat)
      requires Valid()
      modifies this, data
      ensures Valid()
      ensures written == |p|
      ensures Contents() == Overwrite(old(Contents()), old(pos), p)
      ensures pos == old(pos) + |p|
    {
      ghost var before := Contents();
      var at := Reserve(|p|);
      assert data[..|before|] == before;
      forall k | 0 <= k < |p| {
        data[at + k] := p[k];
      }
      written := |p|;
      assert Contents() == Overwrite(before, at, p) by {
        var r := Overwrite(before, at, p);
        assert |r| == size;
        forall k | 0 <= k < size ensures data[k] == r[k] {
          if k < at {
            assert r[k] == before[k];
          } else if k < at + |p| {
            assert r[k] == p[k - at];
          } else {
            assert r[k] == before[k];
          }
        }
      }
    }

    /** Sets the size to k and pulls the cursor back into it. */
    method Resize(k: nat)
      requires Valid() && k <= data.Length
      modifies this
      ensures Valid() && data == old(data)
      ensures size == k && pos == Min(old(pos), k)
    {
      size := k;
      if pos > k {
        pos := k;
      }
    }
  }

  // ---------------------------------------------------------------- File loops

  predicate IsBreak(b: byte) {
    b == 10 || b == 13
  }

  /** The first line break at or after i, or the end of the data. */
  function LineEnd(d: seq<byte>, i: nat): (e: nat)
    requires i <= |d|
    ensures i <= e <= |d|
    ensures forall k :: i <= k < e ==> !IsBreak(d[k])
    ensures e < |d| ==> IsBreak(d[e])
    decreases |d| - i
  {
    if i == |d| || IsBreak(d[i]) then i else LineEnd(d, i + 1)
  }

  /** What getline reports and where it leaves the cursor. */
  datatype LineRead = LineRead(ok: bool, line: seq<byte>, next: nat)

  /**
   * File::getline from cursor p (file.cpp:76-93): the bytes up to the first
   * \n or \r; after a \r one more byte is read and put back unless it is
   * \n.  At the very end that extra getc does not move the cursor, so the
   * step back lands on the \r itself.
   */
  function ReadLine(d: seq<byte>, p: nat): (r: LineRead)
    requires p <= |d|
    ensures r.ok <==> p < |d|
    ensures p <= r.next <= |d|
    ensures r.ok ==> p < r.next || r.next == |d| - 1
  {
    var e := LineEnd(d, p);
    if e == |d| then LineRead(e > p, d[p..e], e)
    else if d[e] == 10 then LineRead(true, d[p..e], e + 1)
    else if e + 1 < |d| && d[e + 1] == 10 then LineRead(true, d[p..e], e + 2)
    else if e + 1 < |d| then LineRead(true, d[p..e], e + 1)
    else LineRead(true, d[p..e], e)
  }

  /** The line is the run of non-break bytes at the cursor; false only at the end. */
  lemma ReadLineMeaning(d: seq<byte>, p: nat)
    requires p <= |d|
    ensures !ReadLine(d, p).ok <==> p == |d|
    ensures ReadLine(d, p).line == d[p..p + |ReadLine(d, p).line|]
    ensures forall k :: 0 <= k < |ReadLine(d, p).line| ==> !IsBreak(ReadLine(d, p).line[k])
    ensures p + |ReadLine(d, p).line| < |d| ==> IsBreak(d[p + |ReadLine(d, p).line|])
    ensures ReadLine(d, p).next <= |d|
  {
    var e := LineEnd(d, p);
    assert |ReadLine(d, p).line| == e - p;
    forall k | 0 <= k < e - p ensures !IsBreak(ReadLine(d, p).line[k]) {
      assert ReadLine(d, p).line[k] == d[p + k];
    }
  }

  /**
   * Every call consumes its line and terminator, except one: a \r that is
   * the last byte leaves the cursor on it, so getline answers true with an
   * empty line there for ever.
   */
  lemma ReadLineAdvances(d: seq<byte>, p: nat)
    requires p < |d|
    ensures ReadLine(d, p).next > p <==> !(LineEnd(d, p) == p == |d| - 1 && d[p] == 13)
  {
  }

  lemma LoneCarriageReturn(d: seq<byte>)
    requires |d| > 0 && d[|d| - 1] == 13
    ensures ReadLine(d, |d| - 1) == LineRead(true, [], |d| - 1)
  {
  }

  /** getline over a MemFileBuffer: getc until EOF or a break. */
  method GetLine(f: MemFileBuffer) returns (ok: bool, line: seq<byte>)
    requires f.Valid()
    modifies f
    ensures f.Valid()
    ensures LineRead(ok, line, f.pos) == ReadLine(f.data, old(f.pos))
  {
    line := [];
    ghost var p := f.pos;
    while true
      invariant f.Valid() && p <= f.pos
      invariant line == f.data[p..f.pos]
      invariant LineEnd(f.data, p) == LineEnd(f.data, f.pos)
      decreases |f.data| - f.pos
    {
      ghost var at := f.pos;
      var c := f.Getc();
      if c == EOF {
        return line != [], line;
      }
      if c == 13 {
        var next := f.Getc();
        if next != 10 {
          f.Seek(-1, Cur);
        }
        return true, line;
      }
      if c == 10 {
        return true, line;
      }
      assert f.data[p..f.pos] == f.data[p..at] + [f.data[at]];
      line := line + [c as byte];
    }
  }

  /** File::all over a MemFileBuffer: read 64 KiB chunks until a read returns nothing. */
  method All(f: MemFileBuffer) returns (s: seq<byte>)
    requires f.Valid()
    modifies f
    ensures f.Valid()
    ensures s == f.data[old(f.pos)..] && f.pos == |f.data|
  {
    s := [];
    ghost var p := f.pos;
    while true
      invariant f.Valid() && p <= f.pos
      invariant s == f.data[p..f.pos]
      decreases |f.data| - f.pos
    {
      var chunk := f.Read(ChunkSize);
      if chunk == [] {
        return;
      }
      s := s + chunk;
    }
  }
}
