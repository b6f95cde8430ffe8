/** Database files as pages of bytes, and the copy of one source page into a
    destination whose pages may be larger or smaller. */
module BackupPages {
  import opened Arithmetic
  import opened Bytes

  /** The page sizes of SQLite database files. */
  predicate IsPageSize(n: nat) {
    n == 512 || n == 1024 || n == 2048 || n == 4096 || n == 8192 || n == 16384 || n == 32768 || n == 65536
  }

  /** Page size of the source and of the destination, and the offset of the byte
      that is reserved for locking; the page holding that byte is never used. */
  datatype Geometry = Geometry(src: nat, dest: nat, pending: nat) {
    predicate Valid() {
      IsPageSize(src) && IsPageSize(dest) && pending > 0 && pending % 65536 == 0
    }

    function SrcPending(): nat
      requires src > 0
    {
      pending / src + 1
    }

    function DestPending(): nat
      requires dest > 0
    {
      pending / dest + 1
    }
  }

  /** A pager: the pages that have content, and the size of the file in pages. */
  datatype Pager = Pager(pages: map<nat, seq<Byte>>, dbSize: nat) {
    predicate Valid(size: nat) {
      forall pg :: pg in pages ==> |pages[pg]| == size
    }
  }

  function ZeroPage(size: nat): (p: seq<Byte>)
    ensures |p| == size && forall i :: 0 <= i < size ==> p[i] == 0
  {
    seq(size, i => 0)
  }

  /** sqlite3PagerGet(): a page without content reads as zeros. */
  function PageData(d: Pager, size: nat, pg: nat): (p: seq<Byte>)
    requires d.Valid(size)
    ensures |p| == size
  {
    if pg in d.pages then d.pages[pg] else ZeroPage(size)
  }

  /** The byte at an offset of the file. */
  function ByteAt(d: Pager, size: nat, off: nat): Byte
    requires d.Valid(size) && size > 0
  {
    PageData(d, size, off / size + 1)[off % size]
  }

  function Splice(p: seq<Byte>, at: nat, data: seq<Byte>): (r: seq<Byte>)
    requires at + |data| <= |p|
    ensures |r| == |p|
    ensures forall i :: 0 <= i < |p| ==> r[i] == if at <= i < at + |data| then data[i - at] else p[i]
  {
    p[..at] + data + p[at+|data|..]
  }

  /** sqlite3PagerWrite() of a page and an update of part of it. */
  function WriteAt(d: Pager, size: nat, pg: nat, at: nat, data: seq<Byte>): (r: Pager)
    requires d.Valid(size) && at + |data| <= size
    ensures r.Valid(size) && r.dbSize >= d.dbSize && r.dbSize >= pg
  {
    Pager(d.pages[pg := Splice(PageData(d, size, pg), at, data)], if pg > d.dbSize then pg else d.dbSize)
  }

  /** sqlite3Put4byte() */
  function Put4(v: nat): (r: seq<Byte>)
    ensures |r| == 4
  {
    [(v / 0x100_0000) % 256, (v / 0x1_0000) % 256, (v / 0x100) % 256, v % 256]
  }

  /** Most significant byte first. */
  lemma Put4Value(v: nat)
    requires v < 0x1_0000_0000
    ensures var r := Put4(v);
            r[0] as int * 0x100_0000 + r[1] as int * 0x1_0000 + r[2] as int * 0x100 + r[3] as int == v
  {
    var a := v / 0x100;
    var b := a / 0x100;
    assert v / 0x1_0000 == b && v / 0x100_0000 == b / 0x100;
  }

  // ----- divisibility of page sizes -----

  lemma PageSizesDivide(a: nat, b: nat)
    requires IsPageSize(a) && IsPageSize(b) && a <= b
    ensures b % a == 0
  {
  }

  lemma PendingDivides(a: nat, pending: nat)
    requires IsPageSize(a) && pending % 65536 == 0
    ensures pending % a == 0
  {
    var m := pending / 65536;
    PageSizesDivide(a, 65536);
    var k := 65536 / a;
    assert k * a == 65536;
    assert pending == m * (k * a) == (m * k) * a;
    DivUnique(pending, a, m * k, 0);
  }

  /** Offset `at + i` lies in the page that starts at page boundary `k * size`. */
  lemma OffsetInPage(k: nat, size: nat, i: nat)
    requires i < size
    ensures (k * size + i) / size == k && (k * size + i) % size == i
  {
    DivUnique(k * size + i, size, k, i);
  }

  /** Writing inside one page changes exactly those bytes of the file. */
  lemma WriteBytes(d: Pager, size: nat, pg: nat, at: nat, data: seq<Byte>, off: nat)
    requires d.Valid(size) && size > 0 && pg > 0 && at + |data| <= size
    ensures var k := (pg - 1) * size + at;
            ByteAt(WriteAt(d, size, pg, at, data), size, off)
            == if k <= off < k + |data| then data[off - k] else ByteAt(d, size, off)
  {
    PageBytes(d, size, pg, at, data, off / size + 1, off % size);
    PlaceInPage(size, pg, at, |data|, off);
    hide WriteAt, PageData;
  }

  lemma PageBytes(d: Pager, size: nat, pg: nat, at: nat, data: seq<Byte>, q: nat, i: nat)
    requires d.Valid(size) && i < size && at + |data| <= size
    ensures PageData(WriteAt(d, size, pg, at, data), size, q)[i]
            == if q == pg && at <= i < at + |data| then data[i - at] else PageData(d, size, q)[i]
  {
  }

  /** Where offset `off` lies when a page has a range at its offset `at`. */
  lemma PlaceInPage(size: nat, pg: nat, at: nat, n: nat, off: nat)
    requires size > 0 && pg > 0 && at + n <= size
    ensures var k := (pg - 1) * size + at;
            (k <= off < k + n <==> off / size + 1 == pg && at <= off % size < at + n)
            && (k <= off < k + n ==> off - k == off % size - at)
  {
    var base := (pg - 1) * size;
    if off / size + 1 == pg {
      assert off == base + off % size;
    } else if base + at <= off < base + at + n {
      OffsetInPage(pg - 1, size, off - base);
    }
  }

  /** The same for a write given by its offset in the file. */
  lemma WriteBytesAt(d: Pager, size: nat, iOff: nat, data: seq<Byte>, off: nat)
    requires d.Valid(size) && size > 0 && iOff % size + |data| <= size
    ensures ByteAt(WriteAt(d, size, iOff / size + 1, iOff % size, data), size, off)
            == if iOff <= off < iOff + |data| then data[off - iOff] else ByteAt(d, size, off)
  {
    hide ByteAt, WriteAt;
    assert (iOff / size) * size + iOff % size == iOff;
    WriteBytes(d, size, iOff / size + 1, iOff % size, data, off);
  }
}
