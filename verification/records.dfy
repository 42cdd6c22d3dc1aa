/** Files of fixed-width records: what a loop that reads records until a
    read fails sees, and what it writes for them. A trailing piece shorter
    than a record is never delivered by such a loop. */
module Records {
  import opened ModArith
  import opened Bytes
  import opened Streams

  /** The output of f for every whole record of `width` bytes in data, in
      order; a short piece at the end yields nothing. */
  function MapRecords(data: seq<Byte>, width: nat, f: seq<Byte> -> seq<Byte>): seq<Byte>
    requires width >= 1
    decreases |data|
  {
    if |data| < width then [] else f(data[..width]) + MapRecords(data[width..], width, f)
  }

  /** The short piece after the last whole record. */
  function Leftover(data: seq<Byte>, width: nat): (r: seq<Byte>)
    requires width >= 1
    ensures |r| < width && |r| <= |data|
    decreases |data|
  {
    if |data| < width then data else Leftover(data[width..], width)
  }

  /** Records of a prefix made of whole records come first. */
  lemma {:induction false} MapRecordsAppend(x: seq<Byte>, y: seq<Byte>, width: nat, f: seq<Byte> -> seq<Byte>)
    requires width >= 1 && |x| % width == 0
    ensures MapRecords(x + y, width, f) == MapRecords(x, width, f) + MapRecords(y, width, f)
    ensures Leftover(x + y, width) == Leftover(y, width)
    decreases |x|
  {
    if |x| > 0 {
      if |x| < width {
        DivModUnique(|x|, width, 0, |x|);
        assert false;
      }
      var rest := x[width..];
      AddMultipleMod(|rest|, 1, width);
      assert (x + y)[..width] == x[..width];
      assert (x + y)[width..] == rest + y;
      MapRecordsAppend(rest, y, width, f);
    } else {
      assert x + y == y;
    }
  }

  /** One whole record yields f of it. */
  lemma MapRecordsOne(x: seq<Byte>, width: nat, f: seq<Byte> -> seq<Byte>)
    requires width >= 1 && |x| == width
    ensures MapRecords(x, width, f) == f(x)
    ensures Leftover(x, width) == []
  {
    assert x[..width] == x;
    assert x[width..] == [];
  }

  /** No whole record: nothing is yielded and all of it is left over. */
  lemma MapRecordsShort(x: seq<Byte>, width: nat, f: seq<Byte> -> seq<Byte>)
    requires width >= 1 && |x| < width
    ensures MapRecords(x, width, f) == [] && Leftover(x, width) == x
  {
  }

  /** When f keeps the width of every record, the output and the leftover
      together are as long as the data. */
  lemma {:induction false} MapRecordsLength(data: seq<Byte>, width: nat, f: seq<Byte> -> seq<Byte>)
    requires width >= 1
    requires forall r :: |r| == width ==> |f(r)| == width
    ensures |MapRecords(data, width, f)| + |Leftover(data, width)| == |data|
    decreases |data|
  {
    if |data| >= width {
      MapRecordsLength(data[width..], width, f);
    }
  }

  /** One step of a loop over the records: the records up to q, followed by
      the record at q, are the records up to q + width. */
  lemma MapRecordsStep(data: seq<Byte>, q: nat, width: nat, f: seq<Byte> -> seq<Byte>)
    requires width >= 1 && q % width == 0 && q + width <= |data|
    ensures MapRecords(data[..q + width], width, f)
         == MapRecords(data[..q], width, f) + f(data[q..q + width])
    ensures (q + width) % width == 0
  {
    assert data[..q + width] == data[..q] + data[q..q + width];
    MapRecordsAppend(data[..q], data[q..q + width], width, f);
    MapRecordsOne(data[q..q + width], width, f);
    AddMultipleMod(q, 1, width);
  }

  /** The end of a loop over the records: once fewer than width bytes are
      left after q, the records up to q are all the records. */
  lemma MapRecordsEnd(data: seq<Byte>, q: nat, width: nat, f: seq<Byte> -> seq<Byte>)
    requires width >= 1 && q % width == 0 && q <= |data| < q + width
    ensures MapRecords(data, width, f) == MapRecords(data[..q], width, f)
    ensures Leftover(data, width) == data[q..]
  {
    assert data == data[..q] + data[q..];
    MapRecordsAppend(data[..q], data[q..], width, f);
    MapRecordsShort(data[q..], width, f);
  }

  /** With f making records of k bytes, the output holds k bytes per whole
      input record. */
  lemma {:induction false} MapRecordsCount(data: seq<Byte>, width: nat, f: seq<Byte> -> seq<Byte>, k: nat)
    requires width >= 1 && forall r :: |f(r)| == k
    ensures |MapRecords(data, width, f)| == k * (|data| / width)
    decreases |data|
  {
    if |data| < width {
      DivModUnique(|data|, width, 0, |data|);
    } else {
      MapRecordsCount(data[width..], width, f, k);
      var n := |data| - width;
      DivModUnique(|data|, width, n / width + 1, n % width);
      assert k * (n / width + 1) == k * (n / width) + k;
    }
  }

  /** With f making records of k bytes, the i-th output record is f of the
      i-th input record. */
  lemma MapRecordsAt(data: seq<Byte>, width: nat, f: seq<Byte> -> seq<Byte>, k: nat, i: nat)
    requires width >= 1 && forall r :: |f(r)| == k
    requires width * (i + 1) <= |data|
    ensures k * (i + 1) <= |MapRecords(data, width, f)|
    ensures MapRecords(data, width, f)[k * i..k * (i + 1)] == f(data[width * i..width * (i + 1)])
  {
    var wi, ki := width * i, k * i;
    assert width * (i + 1) == wi + width && k * (i + 1) == ki + k;
    var pre, suf := data[..wi], data[wi..];
    var rec := data[wi..wi + width];
    assert data == pre + suf;
    MultipleMod(i, width);
    assert |pre| == i * width;
    MapRecordsAppend(pre, suf, width, f);
    MapRecordsCount(pre, width, f, k);
    DivModUnique(wi, width, i, 0);
    assert suf[..width] == rec;
    var out := MapRecords(data, width, f);
    assert out == MapRecords(pre, width, f) + (f(rec) + MapRecords(suf[width..], width, f));
    assert |MapRecords(pre, width, f)| == ki;
    assert out[ki..ki + k] == f(rec);
  }

  /** One record per byte: with f making records of k bytes, the i-th
      output record is f of the i-th byte. */
  lemma MapBytesAt(data: seq<Byte>, f: seq<Byte> -> seq<Byte>, k: nat, i: nat)
    requires i < |data| && forall r :: |f(r)| == k
    ensures k * i + k <= |MapRecords(data, 1, f)|
    ensures MapRecords(data, 1, f)[k * i..k * i + k] == f([data[i]])
  {
    assert 1 * i == i && 1 * (i + 1) == i + 1 && k * (i + 1) == k * i + k;
    assert data[i..i + 1] == [data[i]];
    MapRecordsAt(data, 1, f, k, i);
  }

  /** When g undoes f on every record, mapping g over the output of f gives
      the whole records back, and only the leftover is lost. */
  lemma {:induction false} MapRecordsUndo(data: seq<Byte>, width: nat, f: seq<Byte> -> seq<Byte>,
                                          width2: nat, g: seq<Byte> -> seq<Byte>)
    requires width >= 1 && width2 >= 1
    requires forall r {:trigger f(r)} :: |r| == width ==> |f(r)| == width2 && g(f(r)) == r
    ensures MapRecords(MapRecords(data, width, f), width2, g) + Leftover(data, width) == data
    decreases |data|
  {
    if |data| < width {
      assert MapRecords(data, width, f) == [];
    } else {
      var t := data[width..];
      UndoFirstRecord(data, width, f, width2, g);
      MapRecordsUndo(t, width, f, width2, g);
      assert data == data[..width] + t;
    }
  }

  /** The first record of the round trip comes back first. */
  lemma UndoFirstRecord(data: seq<Byte>, width: nat, f: seq<Byte> -> seq<Byte>,
                        width2: nat, g: seq<Byte> -> seq<Byte>)
    requires width >= 1 && width2 >= 1 && |data| >= width
    requires |f(data[..width])| == width2 && g(f(data[..width])) == data[..width]
    ensures MapRecords(MapRecords(data, width, f), width2, g)
         == data[..width] + MapRecords(MapRecords(data[width..], width, f), width2, g)
    ensures Leftover(data, width) == Leftover(data[width..], width)
  {
    var fh, mt := f(data[..width]), MapRecords(data[width..], width, f);
    assert MapRecords(data, width, f) == fh + mt;
    MultipleMod(1, width2);
    MapRecordsAppend(fh, mt, width2, g);
    MapRecordsOne(fh, width2, g);
  }

  /** The loop the library writes for every record file: read `width` bytes
      from src until a read fails and write f of each record to dst. A short
      piece at the end fails its read and yields nothing; src ends failed. */
  method TransformRecords(src: Stream, dst: Stream, width: nat, f: seq<Byte> -> seq<Byte>)
    requires width >= 1 && src.Valid() && dst.Valid() && src != dst
    modifies src, dst
    ensures src.Valid() && src.bytes == old(src.bytes) && src.failed
    ensures src.pos == if old(src.failed) then old(src.pos) else |src.bytes|
    ensures dst.Valid() && dst.failed == old(dst.failed)
    ensures (dst.bytes, dst.pos)
         == AfterWrite(old(dst.bytes), old(dst.pos), dst.failed, MapRecords(old(src.Remaining()), width, f))
  {
    ghost var d0, dp0 := dst.bytes, dst.pos;
    ghost var rest := src.Remaining();
    ghost var p0, f0 := src.pos, src.failed;
    ghost var q := 0;
    ghost var written: seq<Byte> := [];
    assert Drop(rest, 0) == rest;
    var part, ok := src.ReadNext(width, rest, 0, p0, f0);
    while ok
      invariant src.Valid() && src.bytes == old(src.bytes)
      invariant dst.Valid() && dst.failed == old(dst.failed)
      invariant q <= |rest| && q % width == 0
      invariant ok ==> q + width <= |rest| && part == rest[q..q + width]
      invariant !ok ==> |rest| < q + width
      invariant (src.pos, src.failed) == AfterReads(p0, f0, |src.bytes|, q + width)
      invariant src.Remaining() == Drop(rest, q + width)
      invariant written == MapRecords(rest[..q], width, f)
      invariant (dst.bytes, dst.pos) == AfterWrite(d0, dp0, dst.failed, written)
      decreases |rest| - q
    {
      part, ok := TransformStep(src, dst, width, f, part, rest, q, p0, f0, d0, dp0, written);
      written := written + f(rest[q..q + width]);
      q := q + width;
    }
    MapRecordsEnd(rest, q, width, f);
  }

  /** One turn of TransformRecords' loop: f of the record just read is
      written, and the next record is read. */
  method TransformStep(src: Stream, dst: Stream, width: nat, f: seq<Byte> -> seq<Byte>, part: seq<Byte>,
                       ghost rest: seq<Byte>, ghost q: nat, ghost p0: nat, ghost f0: bool,
                       ghost d0: seq<Byte>, ghost dp0: nat, ghost written: seq<Byte>)
    returns (next: seq<Byte>, ok: bool)
    requires width >= 1 && src != dst && src.Valid() && dst.Valid()
    requires q % width == 0 && q + width <= |rest| && part == rest[q..q + width]
    requires p0 <= |src.bytes| && (src.pos, src.failed) == AfterReads(p0, f0, |src.bytes|, q + width)
    requires src.Remaining() == Drop(rest, q + width)
    requires written == MapRecords(rest[..q], width, f)
    requires dp0 <= |d0| && (dst.bytes, dst.pos) == AfterWrite(d0, dp0, dst.failed, written)
    modifies src, dst
    ensures src.Valid() && src.bytes == old(src.bytes) && dst.Valid() && dst.failed == old(dst.failed)
    ensures (q + width) % width == 0
    ensures ok ==> q + 2 * width <= |rest| && next == rest[q + width..q + 2 * width]
    ensures !ok ==> |rest| < q + 2 * width
    ensures (src.pos, src.failed) == AfterReads(p0, f0, |src.bytes|, q + 2 * width)
    ensures src.Remaining() == Drop(rest, q + 2 * width)
    ensures written + f(part) == MapRecords(rest[..q + width], width, f)
    ensures (dst.bytes, dst.pos) == AfterWrite(d0, dp0, dst.failed, written + f(part))
  {
    var out := f(part);
    MapRecordsStep(rest, q, width, f);
    dst.WriteNext(out, d0, dp0, written);
    next, ok := src.ReadNext(width, rest, q + width, p0, f0);
    assert q + width + width == q + 2 * width;
  }

  /** The loop the library writes over the characters of a digest: f of
      each character, in order, at the stream's position. */
  method WriteRecords(digest: seq<Byte>, f: seq<Byte> -> seq<Byte>, file: Stream)
    requires file.Valid()
    modifies file
    ensures file.Valid() && file.failed == old(file.failed)
    ensures (file.bytes, file.pos)
         == AfterWrite(old(file.bytes), old(file.pos), file.failed, MapRecords(digest, 1, f))
  {
    ghost var b0, p0 := file.bytes, file.pos;
    ghost var written: seq<Byte> := [];
    var i := 0;
    while i < |digest|
      invariant 0 <= i <= |digest|
      invariant file.Valid() && file.failed == old(file.failed)
      invariant written == MapRecords(digest[..i], 1, f)
      invariant (file.bytes, file.pos) == AfterWrite(b0, p0, file.failed, written)
    {
      var part := f([digest[i]]);
      MapRecordsStep(digest, i, 1, f);
      assert digest[i..i + 1] == [digest[i]];
      AfterWriteTwice(b0, p0, file.failed, written, part);
      file.Write(part);
      written := written + part;
      i := i + 1;
    }
    assert digest[..|digest|] == digest;
  }
}
