/** The part of a C++ file stream (std::fstream) the library relies on: a
    file of bytes, one position shared by reads and writes, and a fail
    state that a short read sets and that stops every later read, write and
    seek until it is cleared. */
module Streams {
  import opened Bytes

  function Min(a: nat, b: nat): nat {
    if a <= b then a else b
  }

  /** The file after writing byte c at position p. */
  function WriteByte(b: seq<Byte>, p: nat, c: Byte): (r: seq<Byte>)
    requires p <= |b|
  {
    if p < |b| then b[p := c] else b + [c]
  }

  /** The file after writing x at position p: the bytes under x are
      overwritten and the file grows when x runs past its end. */
  function WriteAt(b: seq<Byte>, p: nat, x: seq<Byte>): (r: seq<Byte>)
    requires p <= |b|
    ensures |r| == if p + |x| <= |b| then |b| else p + |x|
    decreases |x|
  {
    if |x| == 0 then b else WriteAt(WriteByte(b, p, x[0]), p + 1, x[1..])
  }

  /** A write that stays inside the file overwrites the bytes under it. */
  lemma {:induction false} WriteAtInside(b: seq<Byte>, p: nat, x: seq<Byte>)
    requires p + |x| <= |b|
    ensures WriteAt(b, p, x) == b[..p] + x + b[p + |x|..]
    decreases |x|
  {
    if |x| > 0 {
      var b1 := b[p := x[0]];
      WriteAtInside(b1, p + 1, x[1..]);
      assert b1[..p + 1] == b[..p] + [x[0]];
      assert b1[p + |x|..] == b[p + |x|..];
      assert x == [x[0]] + x[1..];
    } else {
      assert b[..p] + b[p..] == b;
    }
  }

  /** A write that runs past the end of the file replaces its tail. */
  lemma {:induction false} WriteAtPast(b: seq<Byte>, p: nat, x: seq<Byte>)
    requires p <= |b| < p + |x|
    ensures WriteAt(b, p, x) == b[..p] + x
    decreases |x|
  {
    var b1 := WriteByte(b, p, x[0]);
    assert b1[..p + 1] == b[..p] + [x[0]];
    assert x == [x[0]] + x[1..];
    if |x| == 1 {
      assert b1 == b[..p] + [x[0]];
    } else {
      WriteAtPast(b1, p + 1, x[1..]);
    }
  }

  /** A write that stays inside the file leaves the bytes after it alone. */
  lemma WriteAtKeepsTail(b: seq<Byte>, p: nat, x: seq<Byte>)
    requires p + |x| <= |b|
    ensures WriteAt(b, p, x)[p + |x|..] == b[p + |x|..]
  {
    WriteAtInside(b, p, x);
  }

  /** The bytes of the file after a write, spelled out. */
  lemma WriteAtSlices(b: seq<Byte>, p: nat, x: seq<Byte>)
    requires p <= |b|
    ensures WriteAt(b, p, x) == b[..p] + x + (if p + |x| <= |b| then b[p + |x|..] else [])
  {
    if p + |x| <= |b| {
      WriteAtInside(b, p, x);
    } else {
      WriteAtPast(b, p, x);
    }
  }

  /** Writing at the end of a file appends. */
  lemma WriteAtEnd(b: seq<Byte>, x: seq<Byte>)
    ensures WriteAt(b, |b|, x) == b + x
  {
    WriteAtSlices(b, |b|, x);
    assert b[..|b|] == b;
  }

  /** Two writes in a row are one write of both. */
  lemma {:induction false} WriteAtTwice(b: seq<Byte>, p: nat, x: seq<Byte>, y: seq<Byte>)
    requires p <= |b|
    ensures WriteAt(WriteAt(b, p, x), p + |x|, y) == WriteAt(b, p, x + y)
    decreases |x|
  {
    if |x| > 0 {
      WriteAtTwice(WriteByte(b, p, x[0]), p + 1, x[1..], y);
      assert (x + y)[0] == x[0];
      assert (x + y)[1..] == x[1..] + y;
    } else {
      assert x + y == y;
    }
  }

  /** The file and position after writing x at position p of a stream whose
      fail state is `failed`: a failed stream writes nothing. */
  function AfterWrite(b: seq<Byte>, p: nat, failed: bool, x: seq<Byte>): (r: (seq<Byte>, nat))
    requires p <= |b|
    ensures r.1 <= |r.0|
  {
    if failed then (b, p) else (WriteAt(b, p, x), p + |x|)
  }

  /** Writing to an empty file that is not failed leaves exactly what was
      written, with the position after it. */
  lemma WriteToEmpty(x: seq<Byte>)
    ensures AfterWrite([], 0, false, x) == (x, |x|)
  {
    WriteAtEnd([], x);
    assert [] + x == x;
  }

  /** Two writes in a row leave the stream as one write of both. */
  lemma AfterWriteTwice(b: seq<Byte>, p: nat, failed: bool, x: seq<Byte>, y: seq<Byte>)
    requires p <= |b|
    ensures var (b1, p1) := AfterWrite(b, p, failed, x);
      AfterWrite(b1, p1, failed, y) == AfterWrite(b, p, failed, x + y)
  {
    if !failed {
      WriteAtTwice(b, p, x, y);
    }
  }

  /** What is left to read after reading n more bytes: a read past the end
      leaves the stream failed, with nothing left. */
  function Drop(rest: seq<Byte>, n: nat): seq<Byte> {
    if n <= |rest| then rest[n..] else []
  }

  /** Dropping a bytes and then b bytes drops a + b bytes. */
  lemma DropTwice(rest: seq<Byte>, a: nat, b: nat)
    ensures Drop(Drop(rest, a), b) == Drop(rest, a + b)
  {
  }

  /** Asking for n bytes after the first k of rest: the read succeeds
      exactly when rest holds k + n bytes, and then delivers those n. */
  lemma DropRead(rest: seq<Byte>, k: nat, n: nat)
    requires n >= 1
    ensures var d := Drop(rest, k);
      (n <= |d| <==> k + n <= |rest|) && (k + n <= |rest| ==> d[..Min(n, |d|)] == rest[k..k + n])
  {
  }

  /** Position and fail state after asking for n bytes from position p of a
      file of `size` bytes. */
  function AfterReads(p: nat, failed: bool, size: nat, n: nat): (nat, bool) {
    if failed then (p, true)
    else if p + n <= size then (p + n, false)
    else (size, true)
  }

  /** Asking for a bytes and then b bytes ends where asking for a + b does. */
  lemma AfterReadsTwice(p: nat, failed: bool, size: nat, a: nat, b: nat)
    requires p <= size
    ensures var (p1, f1) := AfterReads(p, failed, size, a);
      AfterReads(p1, f1, size, b) == AfterReads(p, failed, size, a + b)
  {
  }

  /** Reading a field from what is left after a read is reading it further on. */
  lemma FieldAfterDrop(rest: seq<Byte>, n: nat, start: nat, width: nat)
    ensures FieldAt(Drop(rest, n), start, width) == FieldAt(rest, n + start, width)
  {
    if n <= |rest| {
      var d := rest[n..];
      var lo := if start <= |d| then start else |d|;
      var hi := if start + width <= |d| then start + width else |d|;
      assert d[lo..hi] == rest[n + lo..n + hi];
    } else {
      assert FieldAt([], start, width) == Zeros(width);
      assert FieldAt(rest, n + start, width) == rest[|rest|..|rest|] + Zeros(width);
    }
  }

  /** A read of `width` bytes after the first n bytes of data, into a zeroed
      variable, delivers the field there, with the missing bytes read as
      zero. */
  lemma ReadField(data: seq<Byte>, n: nat, width: nat, got: seq<Byte>)
    requires var d := Drop(data, n); got == d[..Min(width, |d|)]
    ensures got + Zeros(width - |got|) == FieldAt(data, n, width)
  {
    FieldAfterDrop(data, n, 0, width);
  }

  class Stream {
    /** The file name, for the files the protocols create per connection. */
    const name: seq<char>
    /** Whether the file could be opened; a closed stream is failed for good. */
    const isOpen: bool
    var bytes: seq<Byte>
    var pos: nat
    var failed: bool

    ghost predicate Valid()
      reads this
    {
      pos <= |bytes| && (!isOpen ==> failed && bytes == [])
    }

    /** The bytes a read can still deliver. */
    function Remaining(): (r: seq<Byte>)
      reads this
      requires Valid()
      ensures |r| <= |bytes|
    {
      if failed then [] else bytes[pos..]
    }

    /** A file opened for reading and writing with truncation: empty. */
    constructor (name: seq<char>, isOpen: bool)
      ensures Valid() && this.name == name && this.isOpen == isOpen
      ensures bytes == [] && pos == 0 && failed == !isOpen
    {
      this.name := name;
      this.isOpen := isOpen;
      bytes := [];
      pos := 0;
      failed := !isOpen;
    }

    /** istream::read of n bytes: delivers what is left up to n bytes, and
        fails when fewer than n were left. */
    method Read(n: nat) returns (got: seq<Byte>, ok: bool)
      requires Valid()
      modifies this
      ensures Valid() && bytes == old(bytes)
      ensures ok == (!old(failed) && n <= |old(Remaining())|)
      ensures got == old(Remaining())[..Min(n, |old(Remaining())|)]
      ensures Remaining() == Drop(old(Remaining()), n)
      ensures (pos, failed) == AfterReads(old(pos), old(failed), |bytes|, n)
    {
      if failed {
        got, ok := [], false;
      } else if pos + n <= |bytes| {
        got, ok := bytes[pos..pos + n], true;
        pos := pos + n;
      } else {
        got, ok := bytes[pos..], false;
        pos := |bytes|;
        failed := true;
      }
    }

    /** Read of n bytes in a loop that has asked for k bytes of rest so far,
        from position p0 with fail state f0. */
    method ReadNext(n: nat, ghost rest: seq<Byte>, ghost k: nat, ghost p0: nat, ghost f0: bool)
      returns (got: seq<Byte>, ok: bool)
      requires n >= 1 && Valid() && Remaining() == Drop(rest, k)
      requires p0 <= |bytes| && (pos, failed) == AfterReads(p0, f0, |bytes|, k)
      modifies this
      ensures Valid() && bytes == old(bytes)
      ensures ok ==> k + n <= |rest| && got == rest[k..k + n]
      ensures !ok ==> |rest| < k + n
      ensures Remaining() == Drop(rest, k + n)
      ensures (pos, failed) == AfterReads(p0, f0, |bytes|, k + n)
    {
      got, ok := Read(n);
      DropRead(rest, k, n);
      DropTwice(rest, k, n);
      AfterReadsTwice(p0, f0, |bytes|, k, n);
    }

    /** Write of x in a loop that has written `written` so far, from
        position p0 of the file b0. */
    method WriteNext(x: seq<Byte>, ghost b0: seq<Byte>, ghost p0: nat, ghost written: seq<Byte>)
      requires Valid() && p0 <= |b0| && (bytes, pos) == AfterWrite(b0, p0, failed, written)
      modifies this
      ensures Valid() && failed == old(failed)
      ensures (bytes, pos) == AfterWrite(b0, p0, failed, written + x)
    {
      AfterWriteTwice(b0, p0, failed, written, x);
      Write(x);
    }

    /** ostream::write: overwrites at the position and moves past the bytes
        written; a failed stream writes nothing. */
    method Write(x: seq<Byte>)
      requires Valid()
      modifies this
      ensures Valid() && failed == old(failed)
      ensures (bytes, pos) == AfterWrite(old(bytes), old(pos), failed, x)
    {
      if !failed {
        bytes := WriteAt(bytes, pos, x);
        pos := pos + |x|;
      }
    }

    /** istream::seekg to an absolute position; a failed stream stays put. */
    method Seek(p: nat)
      requires Valid() && p <= |bytes|
      modifies this
      ensures Valid() && bytes == old(bytes) && failed == old(failed)
      ensures pos == if failed then old(pos) else p
      ensures !failed ==> Remaining() == bytes[p..]
    {
      if !failed {
        pos := p;
      }
    }

    /** ios::clear: an open stream becomes usable again. */
    method Clear()
      requires Valid()
      modifies this
      ensures Valid() && bytes == old(bytes) && pos == old(pos)
      ensures failed == !isOpen
    {
      failed := !isOpen;
    }

    /** Reading through std::istreambuf_iterator up to the end of the file:
        it works on the file buffer and ignores the fail state. */
    method ReadToEnd() returns (rest: seq<Byte>)
      requires Valid()
      modifies this
      ensures Valid() && bytes == old(bytes) && failed == old(failed)
      ensures rest == old(bytes)[old(pos)..] && pos == |bytes|
    {
      rest := bytes[pos..];
      pos := |bytes|;
    }
  }
}
