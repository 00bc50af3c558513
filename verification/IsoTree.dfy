/** Directory records of an ISO 9660 image: accepting them so that the tree cannot be endless. */
module IsoTree {
  import opened Bytes
  import opened Modular

  // Offsets of the fields of a directory record: ECMA-119, section 9.1.
  const DR_LENGTH: nat := 0
  const DR_EXTENT: nat := 2
  const DR_SIZE: nat := 10
  const DR_FLAGS: nat := 25
  const DR_NAME_LEN: nat := 32
  const DR_NAME: nat := 33

  const FLAG_DIRECTORY := 2

  function Field32(s: seq<byte>, p: nat): word
    requires p + 4 <= |s|
  {
    Le32(s[p], s[p + 1], s[p + 2], s[p + 3])
  }

  /** The extent location, a signed 32-bit number. */
  function Location(rec: seq<byte>): (l: int)
    requires |rec| >= 34
    ensures -0x8000_0000 <= l < 0x8000_0000
  {
    var x := Field32(rec, DR_EXTENT);
    if x >= 0x8000_0000 then x - TWO32 else x
  }

  function Size(rec: seq<byte>): (n: nat)
    requires |rec| >= 34
  {
    Field32(rec, DR_SIZE)
  }

  predicate IsDirectory(rec: seq<byte>)
    requires |rec| >= 34
  {
    rec[DR_FLAGS] / FLAG_DIRECTORY % 2 == 1
  }

  /** A 32-bit number in both byte orders: ECMA-119, section 7.3.3. */
  function Both(x: word): (b: seq<byte>)
    ensures |b| == 8
  {
    var b0, b1, b2, b3 := x % 0x100, x / 0x100 % 0x100, x / 0x1_0000 % 0x100, x / 0x100_0000;
    [b0, b1, b2, b3, b3, b2, b1, b0]
  }

  lemma BothComesBack(x: word)
    ensures var b := Both(x); Octet(b, 0) + 0x100 * Octet(b, 1) + 0x1_0000 * Octet(b, 2) + 0x100_0000 * Octet(b, 3) == x
  {
    assert x / 0x1_0000 == x / 0x100 / 0x100 && x / 0x100_0000 == x / 0x1_0000 / 0x100;
  }

  /** A directory record as ECMA-119, section 9.1, lays it out: its length, an attribute length, the extent, the size, a
      date, the flags, six bytes of sizes and sequence number, and the identifier behind its length. */
  function RecordBytes(length: byte, attributes: byte, extent: word, size: word, date: seq<byte>, flags: byte,
                       sizes: seq<byte>, name: seq<byte>): (rec: seq<byte>)
    requires |date| == 7 && |sizes| == 6 && |name| < 0x100
    ensures |rec| == 33 + |name|
  {
    [length, attributes] + (Both(extent) + (Both(size) + (date + ([flags] + (sizes + ([|name|] + name))))))
  }

  /** A record gives back its extent, as a signed number, its size and whether it is a directory; and it is well formed
      exactly if its length is at least 34, covers its identifier and does not reach beyond what there is. */
  lemma RecordComesBack(length: byte, attributes: byte, extent: word, size: word, date: seq<byte>, flags: byte,
                        sizes: seq<byte>, name: seq<byte>, more: seq<byte>)
    requires |date| == 7 && |sizes| == 6 && |name| < 0x100 && |name| + |more| > 0
    ensures var rec := RecordBytes(length, attributes, extent, size, date, flags, sizes, name) + more;
            && Location(rec) == (if extent < 0x8000_0000 then extent else extent - 0x1_0000_0000)
            && Size(rec) == size && (IsDirectory(rec) <==> flags / 2 % 2 == 1)
            && (WellFormed(rec) <==> 34 <= length <= |rec| && 0 < |name| <= length - 33)
  {
    hide Both;
    var inner := date + ([flags] + (sizes + ([|name|] + name)));
    var rec := RecordBytes(length, attributes, extent, size, date, flags, sizes, name) + more;
    assert rec[2..10] == Both(extent) && rec[10..18] == Both(size);
    assert inner[7] == flags && inner[14] == |name|;
    assert rec[25] == inner[7] && rec[32] == inner[14];
    FieldOfBoth(rec, 2, extent);
    FieldOfBoth(rec, 10, size);
  }

  lemma FieldOfBoth(rec: seq<byte>, at: nat, x: word)
    requires at + 8 <= |rec| && rec[at..at + 8] == Both(x)
    ensures Field32(rec, at) == x
  {
    hide Both;
    BothComesBack(x);
    var b := rec[at..at + 8];
    assert b[0] == rec[at] && b[1] == rec[at + 1] && b[2] == rec[at + 2] && b[3] == rec[at + 3];
  }

  datatype Volume = Volume(blockSize: nat, blocks: nat)

  predicate ValidVolume(v: Volume) {
    0 < v.blockSize < 0x1_0000 && v.blocks < TWO32
  }

  function BlocksOf(size: nat, v: Volume): nat
    requires ValidVolume(v)
  {
    (size + v.blockSize - 1) / v.blockSize
  }

  /** The blocks that a size takes fit some number of blocks exactly if the bytes do. */
  lemma BlocksFitExactly(size: nat, v: Volume, k: nat)
    requires ValidVolume(v)
    ensures BlocksOf(size, v) <= k <==> size <= k * v.blockSize
  {
    var x, w := size + v.blockSize - 1, v.blockSize;
    var q, r := x / w, x % w;
    assert x == q * w + r && r < w by {
      Quotient(x, w);
    }
    if q <= k {
      MulMonotone(q, k, w);
    } else {
      MulMonotone(k + 1, q, w);
      assert (k + 1) * w == k * w + w;
    }
  }

  /** In bytes: an extent that is not empty does not lie before the volume, and one that does not start in the first
      block is over by its end. */
  lemma InsideExactly(rec: seq<byte>, v: Volume)
    requires |rec| >= 34 && ValidVolume(v)
    ensures Inside(rec, v) <==>
            && (Size(rec) > 0 ==> Location(rec) >= 0)
            && (Location(rec) > 0 ==>
                  Location(rec) <= v.blocks && Size(rec) <= (v.blocks - Location(rec)) * v.blockSize)
  {
    hide Location, Size, BlocksOf;
    if Location(rec) > 0 {
      if Location(rec) <= v.blocks {
        BlocksFitExactly(Size(rec), v, v.blocks - Location(rec));
      } else {
        BlocksAreNotNegative(Size(rec), v);
      }
    }
  }

  lemma BlocksAreNotNegative(size: nat, v: Volume)
    requires ValidVolume(v)
    ensures BlocksOf(size, v) >= 0
  {
  }

  lemma Quotient(x: nat, w: nat)
    requires w > 0
    ensures x == (x / w) * w + x % w && 0 <= x % w < w
  {
  }

  /** The byte offset of a location, in 64-bit arithmetic. */
  function OffsetOf(location: int, v: Volume): nat {
    v.blockSize * (location % TWO64) % TWO64
  }

  /** The offset kept for a file: an empty one gets none, written as all ones. */
  function KeptOffset(location: int, size: nat, v: Volume): nat {
    if size == 0 && location >= 0 then TWO64 - 1 else OffsetOf(location, v)
  }

  predicate WellFormed(rec: seq<byte>) {
    && |rec| != 0 && 34 <= rec[DR_LENGTH] <= |rec|
    && 0 < rec[DR_NAME_LEN] <= rec[DR_LENGTH] as int - 33
  }

  predicate Inside(rec: seq<byte>, v: Volume)
    requires |rec| >= 34 && ValidVolume(v)
  {
    && (Location(rec) > 0 ==> Location(rec) + BlocksOf(Size(rec), v) <= v.blocks)
    && (Size(rec) != 0 ==> Location(rec) >= 0)
  }

  /** A file or directory; all but the count of its subdirectories is fixed when it is accepted. */
  class FileInfo {
    const parent: FileInfo?
    const location: int
    const offset: nat
    const size: nat
    const isDirectory: bool
    var subdirs: nat
    // The parent, its parent, and so on.
    ghost const ancestors: seq<FileInfo>

    constructor (parent: FileInfo?, location: int, offset: nat, size: nat, isDirectory: bool)
      ensures this.parent == parent && this.location == location && this.offset == offset
      ensures this.size == size && this.isDirectory == isDirectory && subdirs == 0
      ensures ancestors == if parent == null then [] else [parent] + parent.ancestors
    {
      this.parent, this.location, this.offset, this.size, this.isDirectory :=
        parent, location, offset, size, isDirectory;
      subdirs := 0;
      ancestors := if parent == null then [] else [parent] + parent.ancestors;
    }

    /** Accepted: every directory above is non-empty, and every non-empty file lies in the volume, at an
        offset none of its ancestors has. */
    ghost predicate Accepted(v: Volume)
      decreases |ancestors|
    {
      && (parent == null ==> ancestors == [])
      && (parent != null ==>
            ancestors == [parent] + parent.ancestors && parent.size > 0 && parent.Accepted(v))
      && (size > 0 ==>
            && 0 <= location < Max(1, v.blocks)
            && offset == v.blockSize * location
            && forall a :: a in ancestors ==> a.offset != offset)
    }
  }

  /** No ancestor starts where this record points. */
  ghost predicate NoCycle(rec: seq<byte>, parent: FileInfo?, v: Volume)
    requires |rec| >= 34
  {
    parent != null ==>
      parent.offset != OffsetOf(Location(rec), v) &&
      forall a :: a in parent.ancestors ==> a.offset != OffsetOf(Location(rec), v)
  }

  /** Whether a directory, or one of its ancestors, has the offset. */
  method IsAbove(parent: FileInfo?, offset: nat, v: Volume) returns (found: bool)
    requires parent != null ==> parent.Accepted(v)
    ensures found <==>
            parent != null && (parent.offset == offset || exists a :: a in parent.ancestors && a.offset == offset)
  {
    var filep := parent;
    while filep != null
      invariant filep != null ==> parent != null && filep.Accepted(v)
      invariant parent != null && filep != null ==> (Above(parent, offset) <==> Above(filep, offset))
      invariant parent != null && filep == null ==> !Above(parent, offset)
      decreases if filep == null then 0 else 1 + |filep.ancestors|
    {
      if filep.offset == offset {
        return true;
      }
      assert Above(filep, offset) <==> filep.parent != null && Above(filep.parent, offset);
      filep := filep.parent;
    }
    found := false;
  }

  ghost predicate Above(f: FileInfo, offset: nat) {
    f.offset == offset || exists a :: a in f.ancestors && a.offset == offset
  }

  /** Accept a directory record, or return null. */
  method ParseFileInfo(parent: FileInfo?, rec: seq<byte>, v: Volume) returns (file: FileInfo?)
    requires ValidVolume(v)
    requires parent != null ==> parent.Accepted(v) && parent.size > 0
    modifies if parent == null then {} else {parent}
    ensures file != null <==> WellFormed(rec) && Inside(rec, v) && NoCycle(rec, parent, v)
    ensures file != null ==> fresh(file) && file.Accepted(v) && file.parent == parent
    ensures file != null ==>
              && file.location == Location(rec) && file.size == Size(rec) && file.isDirectory == IsDirectory(rec)
              && file.offset == KeptOffset(Location(rec), Size(rec), v)
              && (file.size == 0 && file.location >= 0 ==> file.offset == 0xffff_ffff_ffff_ffff)
              && (file.location < 0 ==> file.offset == 0x1_0000_0000_0000_0000 + v.blockSize * file.location)
    ensures parent != null ==>
              parent.subdirs == old(parent.subdirs) + (if file != null && file.isDirectory then 1 else 0)
  {
    if |rec| == 0 || |rec| < rec[DR_LENGTH] || rec[DR_LENGTH] < 34 {
      return null;
    }
    var drLen: int, nameLen: int := rec[DR_LENGTH], rec[DR_NAME_LEN];
    var location, fsize := Location(rec), Size(rec);
    if drLen - 33 < nameLen || nameLen == 0 {
      return null;
    }
    if location > 0 && location + (fsize + v.blockSize - 1) / v.blockSize > v.blocks {
      return null;
    }
    if fsize != 0 && location < 0 {
      return null;
    }
    var offset := OffsetOf(location, v);
    var cycle := IsAbove(parent, offset, v);
    if cycle {
      return null;
    }
    if fsize != 0 {
      OffsetIsExact(location, fsize, v);
    } else if location < 0 {
      OffsetFromBelow(location, v);
    }
    file := new FileInfo(parent, location, if fsize == 0 && location >= 0 then TWO64 - 1 else offset,
        fsize, IsDirectory(rec));
    if parent != null && file.isDirectory {
      parent.subdirs := parent.subdirs + 1;
    }
  }

  /** A location inside the volume has a byte offset that 64 bits hold exactly. */
  lemma OffsetIsExact(location: int, size: nat, v: Volume)
    requires ValidVolume(v) && size > 0 && 0 <= location < 0x8000_0000
    requires location > 0 ==> location + BlocksOf(size, v) <= v.blocks
    ensures OffsetOf(location, v) == v.blockSize * location
    ensures location < Max(1, v.blocks)
  {
    AtLeastOneBlock(size, v.blockSize);
    MulMonotone(v.blockSize, 0x1_0000, location);
    ModUnique(v.blockSize * location, 0, v.blockSize * location, TWO64);
  }

  /** A negative location, which only an empty file may have, counts down from 2^64. */
  lemma OffsetFromBelow(location: int, v: Volume)
    requires ValidVolume(v) && -0x8000_0000 <= location < 0
    ensures OffsetOf(location, v) == 0x1_0000_0000_0000_0000 + v.blockSize * location
  {
    var w := v.blockSize;
    ModUnique(location, -1, location + TWO64, TWO64);
    MulMonotone(w, 0x1_0000, -location);
    MulMonotone(1, w, -location);
    assert w * (location + TWO64) == (w - 1) * TWO64 + (TWO64 + w * location);
    ModUnique(w * (location + TWO64), w - 1, TWO64 + w * location, TWO64);
  }

  lemma AtLeastOneBlock(size: nat, blockSize: nat)
    requires size > 0 && blockSize > 0
    ensures (size + blockSize - 1) / blockSize >= 1
  {
  }

  // ---------- depth ----------

  /** The locations of the directories above, nearest first. */
  ghost function LocationsAbove(f: FileInfo, v: Volume): (s: seq<int>)
    requires f.Accepted(v)
    ensures |s| == |f.ancestors|
    decreases |f.ancestors|
  {
    if f.parent == null then [] else [f.parent.location] + LocationsAbove(f.parent, v)
  }

  ghost predicate Distinct(s: seq<int>) {
    forall i, j :: 0 <= i < j < |s| ==> s[i] != s[j]
  }

  ghost predicate AllBelow(s: seq<int>, n: nat) {
    forall i :: 0 <= i < |s| ==> 0 <= s[i] < n
  }

  /** Position by position: an ancestor has its location in the volume, and its offset to match. */
  lemma {:induction false} LocationOf(f: FileInfo, v: Volume, i: nat)
    requires f.Accepted(v) && i < |f.ancestors|
    ensures var l := LocationsAbove(f, v)[i];
            0 <= l < Max(1, v.blocks) && f.ancestors[i].offset == v.blockSize * l
    decreases i
  {
    if i > 0 {
      LocationOf(f.parent, v, i - 1);
    }
  }

  lemma {:induction false} LocationsAreDistinct(f: FileInfo, v: Volume)
    requires f.Accepted(v)
    ensures Distinct(LocationsAbove(f, v)) && AllBelow(LocationsAbove(f, v), Max(1, v.blocks))
    decreases |f.ancestors|
  {
    if f.parent != null {
      var p := f.parent;
      LocationsAreDistinct(p, v);
      var above := LocationsAbove(p, v);
      forall i | 0 <= i < |above|
        ensures above[i] != p.location
      {
        LocationOf(p, v, i);
        assert p.ancestors[i] in p.ancestors;
      }
    }
  }

  lemma {:induction false} Pigeonhole(s: seq<int>, n: nat)
    requires Distinct(s) && AllBelow(s, n)
    ensures |s| <= n
    decreases n
  {
    if s != [] {
      BelowIsPositive(s, n, 0);
      if n - 1 in s {
        var i :| 0 <= i < |s| && s[i] == n - 1;
        var rest := s[..i] + s[i + 1..];
        assert forall j :: 0 <= j < |rest| ==> rest[j] == s[if j < i then j else j + 1];
        Pigeonhole(rest, n - 1);
      } else {
        assert forall j :: 0 <= j < |s| ==> s[j] != n - 1;
        Pigeonhole(s, n - 1);
      }
    }
  }

  lemma BelowIsPositive(s: seq<int>, n: nat, i: nat)
    requires AllBelow(s, n) && i < |s|
    ensures n > 0
  {
    assert s[i] >= 0;
  }

  /** No file is deeper than the volume has blocks. */
  lemma DepthIsBounded(f: FileInfo, v: Volume)
    requires f.Accepted(v)
    ensures |f.ancestors| <= Max(1, v.blocks)
  {
    LocationsAreDistinct(f, v);
    Pigeonhole(LocationsAbove(f, v), Max(1, v.blocks));
  }

  // ---------- reading directories ----------

  ghost predicate AllChildren(children: seq<FileInfo>, parent: FileInfo, v: Volume) {
    forall c {:trigger c in children} :: c in children ==> c.Accepted(v) && c.parent == parent
  }

  ghost predicate Acceptable(rec: seq<byte>, parent: FileInfo, v: Volume)
    requires ValidVolume(v)
  {
    WellFormed(rec) && Inside(rec, v) && NoCycle(rec, parent, v)
  }

  /** What is kept of a record. */
  ghost predicate Describes(child: FileInfo, rec: seq<byte>, v: Volume) {
    && WellFormed(rec)
    && child.location == Location(rec) && child.size == Size(rec) && child.isDirectory == IsDirectory(rec)
    && child.offset == KeptOffset(Location(rec), Size(rec), v)
  }

  // Memory is total: the look-ahead vouches only for the first `step` bytes from the start of the extent, and what
  // the loops read beyond it is whatever happens to be there.

  function Span(mem: nat -> byte, from: nat, to: nat): (s: seq<byte>)
    requires from <= to
    ensures |s| == to - from
  {
    seq(to - from, i requires i >= 0 => mem(from + i))
  }

  /** The records of the directory itself and of its parent. */
  predicate IsDot(mem: nat -> byte, p: nat) {
    mem(p + DR_NAME_LEN) == 1 && (mem(p + DR_NAME) == 0 || mem(p + DR_NAME) == 1)
  }

  /** A record starts at `p` and ends inside the block that ends at `end`. */
  predicate StartsAt(mem: nat -> byte, p: nat, end: nat) {
    mem(p) != 0 && p < end && p + mem(p) <= end
  }

  /** The records of one block but for the two dots, each with what follows it in the block. */
  ghost function Recorded(mem: nat -> byte, p: nat, end: nat): seq<seq<byte>>
    decreases end - p
  {
    if StartsAt(mem, p, end) then
      (if IsDot(mem, p) then [] else [Span(mem, p, end)]) + Recorded(mem, p + mem(p), end)
    else []
  }

  /** Records one behind another. */
  ghost function Concatenated(records: seq<seq<byte>>): seq<byte> {
    if records == [] then [] else records[0] + Concatenated(records[1..])
  }

  ghost predicate IsRecord(r: seq<byte>) {
    34 <= |r| < 0x100 && r[0] == |r|
  }

  /** All but those of the directory itself and of its parent, whose identifiers are one byte, 0 or 1. */
  ghost function NoDots(records: seq<seq<byte>>): seq<seq<byte>>
    requires forall r :: r in records ==> IsRecord(r)
  {
    if records == [] then []
    else
      var r := records[0];
      assert IsRecord(r);
      (if r[32] == 1 && r[33] <= 1 then [] else [r]) + NoDots(records[1..])
  }

  /** The records that are read begin with those written. */
  ghost predicate BeginWith(read: seq<seq<byte>>, written: seq<seq<byte>>) {
    |read| == |written| && forall i :: 0 <= i < |read| ==> written[i] <= read[i]
  }

  lemma BeginWithJoins(a: seq<seq<byte>>, b: seq<seq<byte>>, c: seq<seq<byte>>, d: seq<seq<byte>>)
    requires BeginWith(a, b) && BeginWith(c, d)
    ensures BeginWith(a + c, b + d)
  {
  }

  /** A block laid out by a writer: records one behind another, and then zeros or the end of the block. What is read of
      it are those records, in order, but for the dots. */
  lemma {:induction false} BlockComesBack(mem: nat -> byte, p: nat, end: nat, records: seq<seq<byte>>)
    requires forall r :: r in records ==> IsRecord(r)
    requires var all := Concatenated(records);
             && p + |all| <= end && (p + |all| == end || mem(p + |all|) == 0) && Span(mem, p, p + |all|) == all
    ensures BeginWith(Recorded(mem, p, end), NoDots(records))
    decreases |records|
  {
    if records != [] {
      hide Concatenated, IsDot, Span, StartsAt, Recorded, NoDots, BeginWith, IsRecord;
      var r, rest := records[0], records[1..];
      Unfolded(records);
      LaterLaidOut(mem, p, end, r, Concatenated(rest));
      FirstIsRead(mem, p, end, r);
      BlockComesBack(mem, p + |r|, end, rest);
      OneMoreRead(mem, p, end, records);
    }
  }

  lemma Unfolded(records: seq<seq<byte>>)
    requires records != []
    ensures Concatenated(records) == records[0] + Concatenated(records[1..]) && records[0] in records
  {
  }

  lemma LaterLaidOut(mem: nat -> byte, p: nat, end: nat, r: seq<byte>, rest: seq<byte>)
    requires p + |r + rest| <= end && Span(mem, p, p + |r + rest|) == r + rest
    ensures Span(mem, p, p + |r|) == r && Span(mem, p + |r|, p + |r| + |rest|) == rest
  {
    SpanParts(mem, p, |r|, p + |r + rest|);
    assert (r + rest)[..|r|] == r && (r + rest)[|r|..] == rest;
  }

  lemma OneMoreRead(mem: nat -> byte, p: nat, end: nat, records: seq<seq<byte>>)
    requires records != [] && forall r :: r in records ==> IsRecord(r)
    requires var r := records[0];
             && IsRecord(r) && StartsAt(mem, p, end) && mem(p) == |r| && (IsDot(mem, p) <==> r[32] == 1 && r[33] <= 1)
             && p + |r| <= end && Span(mem, p, p + |r|) == r
             && BeginWith(Recorded(mem, p + |r|, end), NoDots(records[1..]))
    ensures BeginWith(Recorded(mem, p, end), NoDots(records))
  {
    hide StartsAt, IsDot, Span, BeginWith;
    var r := records[0];
    SpanParts(mem, p, |r|, end);
    OneBeginsWith(Span(mem, p, end), r);
    BeginWithJoins(if IsDot(mem, p) then [] else [Span(mem, p, end)], if IsDot(mem, p) then [] else [r],
      Recorded(mem, p + |r|, end), NoDots(records[1..]));
  }

  lemma OneBeginsWith(read: seq<byte>, written: seq<byte>)
    requires |written| <= |read| && read[..|written|] == written
    ensures BeginWith([read], [written]) && BeginWith([], [])
  {
  }

  lemma SpanParts(mem: nat -> byte, p: nat, n: nat, q: nat)
    requires p + n <= q
    ensures Span(mem, p, q)[..n] == Span(mem, p, p + n) && Span(mem, p, q)[n..] == Span(mem, p + n, q)
  {
    forall i | n <= i < q - p
      ensures Span(mem, p, q)[i] == Span(mem, p + n, q)[i - n]
    {
      assert p + i == p + n + (i - n);
    }
  }

  lemma FirstIsRead(mem: nat -> byte, p: nat, end: nat, r: seq<byte>)
    requires IsRecord(r) && p + |r| <= end && Span(mem, p, p + |r|) == r
    ensures StartsAt(mem, p, end) && mem(p) == |r|
    ensures IsDot(mem, p) <==> r[32] == 1 && r[33] <= 1
  {
    assert r[0] == mem(p + 0) && r[32] == mem(p + 32) && r[33] == mem(p + 33);
  }

  /** `k * size`, by addition. */
  ghost function Times(k: nat, size: nat): nat {
    if k == 0 then 0 else size + Times(k - 1, size)
  }

  lemma {:induction false} TimesIsProduct(k: nat, size: nat)
    ensures Times(k, size) == k * size
  {
    if k > 0 {
      TimesIsProduct(k - 1, size);
      assert k * size == (k - 1) * size + size;
    }
  }

  /** The records of `k` blocks. */
  ghost function RecordedIn(mem: nat -> byte, p: nat, k: nat, size: nat): seq<seq<byte>>
    decreases k
  {
    if k == 0 then []
    else Recorded(mem, p, p + size) + RecordedIn(mem, p + size, k - 1, size)
  }

  // ---------- how far the loops read ----------

  /** Reading the block that ends at `end` stays below `limit`: every place where a record could start is below it, and
      behind every record that does start there are the bytes that the test for the dots looks at. */
  ghost predicate Contained(mem: nat -> byte, p: nat, end: nat, limit: nat)
    decreases end - p
  {
    && p < limit
    && (StartsAt(mem, p, end) ==>
          && p + DR_NAME_LEN < limit && (mem(p + DR_NAME_LEN) == 1 ==> p + DR_NAME < limit)
          && Contained(mem, p + mem(p), end, limit))
  }

  ghost predicate ContainedIn(mem: nat -> byte, p: nat, k: nat, size: nat, limit: nat)
    decreases k
  {
    k > 0 ==> Contained(mem, p, p + size, limit) && ContainedIn(mem, p + size, k - 1, size, limit)
  }

  /** With 34 bytes of the next block behind it, a block is never read too far. */
  lemma {:induction false} EarlierIsContained(mem: nat -> byte, p: nat, end: nat, limit: nat)
    requires p <= end && end + 34 <= limit
    ensures Contained(mem, p, end, limit)
    decreases end - p
  {
    if StartsAt(mem, p, end) {
      EarlierIsContained(mem, p + mem(p), end, limit);
    }
  }

  /** So all that matters is the last block of the extent. */
  lemma {:induction false} LastBlockDecides(mem: nat -> byte, p: nat, k: nat, size: nat)
    requires k > 0 && size >= 34
    ensures var limit := p + Times(k, size);
            ContainedIn(mem, p, k, size, limit) <==> Contained(mem, limit - size, limit, limit)
    decreases k
  {
    var limit := p + Times(k, size);
    if k > 1 {
      assert Times(k, size) == size + (size + Times(k - 2, size));
      EarlierIsContained(mem, p, p + size, limit);
      LastBlockDecides(mem, p + size, k - 1, size);
    } else {
      assert Times(1, size) == size + Times(0, size);
    }
  }

  /** One block of 2048 bytes: eight dot records of 255 bytes, and a record of eight bytes at 2040. */
  function CrowdedBlock(i: nat): byte {
    if i < 2040 then
      if i % 255 == 0 then 255 else if i % 255 == DR_NAME_LEN then 1 else 0
    else if i == 2040 then 8
    else 0
  }

  lemma {:induction false} CrowdedFrom(n: nat)
    requires n <= 8
    ensures !Contained(CrowdedBlock, 255 * n, 2048, 2048)
    decreases 8 - n
  {
    if n < 8 {
      ModUnique(255 * n, n, 0, 255);
      CrowdedFrom(n + 1);
    }
  }

  /** Reading it goes past the end of the block, and of the extent. */
  lemma ReadsTooFar()
    ensures !ContainedIn(CrowdedBlock, 0, 1, 2048, 2048)
  {
    CrowdedFrom(0);
  }

  // ---------- the loops ----------

  ghost predicate Matches(children: seq<FileInfo>, records: seq<seq<byte>>, i: nat, parent: FileInfo, v: Volume)
    requires ValidVolume(v) && i < |children| && i < |records|
  {
    Acceptable(records[i], parent, v) && Describes(children[i], records[i], v)
  }

  /** Child by child, `children` are what the first of the records say; they are all of the records, or else
      the next is not acceptable. */
  ghost predicate Children(ok: bool, children: seq<FileInfo>, records: seq<seq<byte>>, parent: FileInfo, v: Volume)
    requires ValidVolume(v)
  {
    && |children| <= |records|
    && (forall i :: 0 <= i < |children| ==> Matches(children, records, i, parent, v))
    && (if ok then |children| == |records|
        else |children| < |records| && !Acceptable(records[|children|], parent, v))
  }

  lemma NoChildren(parent: FileInfo, v: Volume)
    requires ValidVolume(v)
    ensures Children(true, [], [], parent, v)
  {
  }

  lemma MoreChildren(ok: bool, first: seq<FileInfo>, before: seq<seq<byte>>, more: seq<FileInfo>, after: seq<seq<byte>>,
                     rest: seq<seq<byte>>, parent: FileInfo, v: Volume)
    requires ValidVolume(v) && Children(true, first, before, parent, v) && Children(ok, more, after, parent, v)
    ensures ok ==> Children(true, first + more, before + after, parent, v)
    ensures !ok ==> Children(false, first + more, before + (after + rest), parent, v)
  {
    var children := first + more;
    var records := if ok then before + after else before + (after + rest);
    forall i | 0 <= i < |children|
      ensures Matches(children, records, i, parent, v)
    {
      if i < |first| {
        assert Matches(first, before, i, parent, v);
        assert children[i] == first[i] && records[i] == before[i];
      } else {
        var k := i - |first|;
        assert Matches(more, after, k, parent, v);
        assert children[i] == more[k] && records[i] == after[k];
      }
    }
    if !ok {
      assert records[|children|] == after[|more|];
    }
  }

  /** One byte of memory; `reach` is one past the highest index read so far. */
  method Peek(mem: nat -> byte, i: nat, reach: nat) returns (b: byte, newReach: nat)
    ensures b == mem(i) && newReach == Max(reach, i + 1)
  {
    b, newReach := mem(i), Max(reach, i + 1);
  }

  /** The test for the two dots, which looks at the identifier only behind a length of one. */
  method TestDot(mem: nat -> byte, p: nat, reach: nat) returns (dot: bool, newReach: nat)
    ensures dot == IsDot(mem, p) == (mem(p + 32) == 1 && mem(p + 33) <= 1)
    ensures newReach == Max(reach, p + if mem(p + 32) == 1 then 34 else 33)
  {
    var length, name;
    length, newReach := Peek(mem, p + DR_NAME_LEN, reach);
    if length != 1 {
      return false, newReach;
    }
    name, newReach := Peek(mem, p + DR_NAME, newReach);
    dot := name == 0 || name == 1;
  }

  /** One record: no child for the two dots, one for any other that is accepted. */
  method ReadRecord(parent: FileInfo, mem: nat -> byte, p: nat, end: nat, v: Volume, reach: nat)
      returns (ok: bool, children: seq<FileInfo>, newReach: nat)
    requires ValidVolume(v) && parent.Accepted(v) && parent.size > 0 && p <= end
    modifies parent
    ensures AllChildren(children, parent, v) && forall c {:trigger c in children} :: c in children ==> fresh(c)
    ensures Children(ok, children, if IsDot(mem, p) then [] else [Span(mem, p, end)], parent, v)
    ensures newReach == Max(reach, p + if mem(p + DR_NAME_LEN) == 1 then DR_NAME + 1 else DR_NAME_LEN + 1)
  {
    var dot;
    dot, newReach := TestDot(mem, p, reach);
    if dot {
      return true, [], newReach;
    }
    // Of the record itself, ParseFileInfo looks at no more than is left of the block.
    ghost var rec := Span(mem, p, end);
    var child := ParseFileInfo(parent, Span(mem, p, end), v);
    if child == null {
      assert !Acceptable([rec][0], parent, v);
      return false, [], newReach;
    }
    children := [child];
    assert Acceptable([rec][0], parent, v) && Describes(children[0], [rec][0], v);
    ok := true;
  }

  /** The children recorded in one block, and how far memory has been read for them. */
  method ReadBlock(parent: FileInfo, mem: nat -> byte, begin: nat, end: nat, v: Volume, ghost limit: nat)
      returns (ok: bool, children: seq<FileInfo>, reach: nat)
    requires ValidVolume(v) && parent.Accepted(v) && parent.size > 0 && begin <= end
    modifies parent
    ensures AllChildren(children, parent, v) && forall c {:trigger c in children} :: c in children ==> fresh(c)
    ensures Children(ok, children, Recorded(mem, begin, end), parent, v)
    ensures Contained(mem, begin, end, limit) ==> reach <= limit
    ensures ok && reach <= limit ==> Contained(mem, begin, end, limit)
  {
    hide Children, IsDot;
    children, ok := [], true;
    NoChildren(parent, v);
    ghost var all, done := Recorded(mem, begin, end), [];
    var p := begin;
    assert all == done + Recorded(mem, p, end);
    var length;
    length, reach := Peek(mem, p, 0);
    while length != 0 && p < end && p + length <= end
      invariant p <= end && AllChildren(children, parent, v) && length == mem(p) && reach >= p + 1 && ok
      invariant forall c {:trigger c in children} :: c in children ==> fresh(c)
      invariant all == done + Recorded(mem, p, end) && Children(true, children, done, parent, v)
      invariant Contained(mem, begin, end, limit) <==> reach <= limit && Contained(mem, p, end, limit)
      decreases end - p
    {
      ghost var first, now, rest := children, if IsDot(mem, p) then [] else [Span(mem, p, end)],
          Recorded(mem, p + length, end);
      var more;
      ok, more, reach := ReadRecord(parent, mem, p, end, v, reach);
      MoreChildren(ok, first, done, more, now, rest, parent, v);
      children := children + more;
      if !ok {
        return;
      }
      Concat3(done, now, rest);
      done := done + now;
      p := p + length;
      length, reach := Peek(mem, p, reach);
    }
    assert done + [] == done;
  }

  /** The children of a directory, from the blocks of its extent; false if some record is refused. All reads are inside
      the extent, as far as the look-ahead vouches for it, if its blocks are so contained, and only then if every record
      is accepted. */
  method ReadChildren(parent: FileInfo, mem: nat -> byte, v: Volume)
    returns (ok: bool, children: seq<FileInfo>, reach: nat)
    requires ValidVolume(v) && parent.Accepted(v)
    modifies parent
    ensures AllChildren(children, parent, v) && forall c {:trigger c in children} :: c in children ==> fresh(c)
    ensures var k := BlocksOf(parent.size, v);
            var step := Times(k, v.blockSize);
            && Children(ok, children, RecordedIn(mem, 0, k, v.blockSize), parent, v)
            && (ContainedIn(mem, 0, k, v.blockSize, step) ==> reach <= step)
            && (ok && reach <= step ==> ContainedIn(mem, 0, k, v.blockSize, step))
  {
    hide Children, Contained, Recorded;
    children, ok, reach := [], true, 0;
    NoChildren(parent, v);
    ghost var k, size := BlocksOf(parent.size, v), v.blockSize;
    ghost var limit := Times(k, size);
    ghost var all, done := RecordedIn(mem, 0, k, size), [];
    ghost var contained := ContainedIn(mem, 0, k, size, limit);
    var b, step := 0, (parent.size + v.blockSize - 1) / v.blockSize * v.blockSize;
    NoBlocks(parent.size, v);
    TimesIsProduct(k, size);
    assert all == done + RecordedIn(mem, b, k, size);
    while step > 0
      invariant step == Times(k, size) && b >= 0 && ok
      invariant AllChildren(children, parent, v)
      invariant forall c {:trigger c in children} :: c in children ==> fresh(c)
      invariant parent.size == 0 ==> k == 0
      invariant all == done + RecordedIn(mem, b, k, size) && Children(true, children, done, parent, v)
      invariant contained <==> reach <= limit && ContainedIn(mem, b, k, size, limit)
      decreases k
    {
      k := k - 1;
      ghost var now, rest := Recorded(mem, b, b + size), RecordedIn(mem, b + size, k, size);
      Concat3(done, now, rest);
      ok, children, reach := NextBlock(parent, mem, b, b + v.blockSize, v, children, reach, done, rest, limit);
      b := b + v.blockSize;
      step := step - v.blockSize;
      if !ok {
        return;
      }
      done := done + now;
    }
    assert done + [] == done;
  }

  /** One more block's children behind those already read. */
  method NextBlock(parent: FileInfo, mem: nat -> byte, p: nat, end: nat, v: Volume, before: seq<FileInfo>, reach: nat,
                   ghost done: seq<seq<byte>>, ghost rest: seq<seq<byte>>, ghost limit: nat)
      returns (ok: bool, children: seq<FileInfo>, newReach: nat)
    requires ValidVolume(v) && parent.Accepted(v) && parent.size > 0 && p <= end
    requires AllChildren(before, parent, v) && Children(true, before, done, parent, v)
    modifies parent
    ensures AllChildren(children, parent, v)
    ensures forall c {:trigger c in children} :: c in children ==> c in before || fresh(c)
    ensures ok ==> Children(true, children, done + Recorded(mem, p, end), parent, v)
    ensures !ok ==> Children(false, children, done + (Recorded(mem, p, end) + rest), parent, v)
    ensures reach <= newReach
    ensures reach <= limit && Contained(mem, p, end, limit) ==> newReach <= limit
    ensures ok && newReach <= limit ==> Contained(mem, p, end, limit)
  {
    var more, far;
    ok, more, far := ReadBlock(parent, mem, p, end, v, limit);
    MoreChildren(ok, before, done, more, Recorded(mem, p, end), rest, parent, v);
    children, newReach := before + more, Max(reach, far);
  }

  lemma NoBlocks(size: nat, v: Volume)
    requires ValidVolume(v)
    ensures size == 0 ==> BlocksOf(size, v) == 0
  {
  }

  /** The files found in a directory, each directory among them with those found in it; and whether all its records
      were accepted. */
  datatype Tree = Tree(node: FileInfo, ok: bool, below: seq<Tree>)

  function Nodes(trees: seq<Tree>): (nodes: seq<FileInfo>)
    ensures |nodes| == |trees|
    ensures forall i :: 0 <= i < |nodes| ==> nodes[i] == trees[i].node
  {
    seq(|trees|, i requires 0 <= i < |trees| => trees[i].node)
  }

  /** The medium from some offset on. */
  function From(medium: nat -> byte, offset: nat): nat -> byte {
    i requires i >= 0 => medium(offset + i)
  }

  /** Every directory of the tree has exactly the children that its records on the medium say. */
  ghost predicate Found(t: Tree, medium: nat -> byte, v: Volume)
    requires ValidVolume(v)
    decreases t
  {
    var k := BlocksOf(t.node.size, v);
    && Children(t.ok, Nodes(t.below), RecordedIn(From(medium, t.node.offset), 0, k, v.blockSize), t.node, v)
    && forall i :: 0 <= i < |t.below| ==>
         if t.below[i].node.isDirectory then Found(t.below[i], medium, v) else t.below[i].below == []
  }

  ghost predicate NoDeeper(t: Tree, n: int)
    decreases t
  {
    n >= 0 && forall i :: 0 <= i < |t.below| ==> NoDeeper(t.below[i], n - 1)
  }

  /** Reading directories within directories comes to an end, whatever is on the medium: every directory is read, and
      no file is deeper than the volume has blocks. */
  method ReadTree(dir: FileInfo, medium: nat -> byte, v: Volume) returns (tree: Tree)
    requires ValidVolume(v) && dir.Accepted(v)
    modifies dir
    ensures tree.node == dir && Found(tree, medium, v)
    ensures NoDeeper(tree, Max(1, v.blocks) - |dir.ancestors|)
    decreases Max(1, v.blocks) - |dir.ancestors|
  {
    hide Children, RecordedIn, ContainedIn;
    DepthIsBounded(dir, v);
    var ok, children, _ := ReadChildren(dir, From(medium, dir.offset), v);
    var below: seq<Tree> := [];
    for i := 0 to |children|
      invariant AllChildren(children, dir, v) && |below| == i
      invariant forall j :: 0 <= j < i ==> below[j].node == children[j]
      invariant forall j :: 0 <= j < i ==> NoDeeper(below[j], Max(1, v.blocks) - |dir.ancestors| - 1)
      invariant forall j :: 0 <= j < i ==>
                  if below[j].node.isDirectory then Found(below[j], medium, v) else below[j].below == []
    {
      var child := children[i];
      assert child in children;
      DepthIsBounded(child, v);
      var found := Tree(child, true, []);
      if child.isDirectory {
        found := ReadTree(child, medium, v);
      }
      below := below + [found];
    }
    tree := Tree(dir, ok, below);
    assert Nodes(below) == children;
  }
}
