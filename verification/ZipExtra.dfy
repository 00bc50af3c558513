/** The extra field of a zip entry: a list of tagged, length-prefixed records. */
module ZipExtra {
  import opened Bytes
  import opened Modular

  const PLACEHOLDER: nat := 0xffff_ffff

  // File modes, in the decimal of 040775, 0100664, 0555 and 0444.
  const MODE_DIRECTORY: nat := 16893
  const MODE_FILE: nat := 33204
  const MODE_READ_ONLY_DIRECTORY: nat := 365
  const MODE_READ_ONLY_FILE: nat := 292

  datatype Aes = Aes(vendor: nat, strength: nat, compression: nat)

  /** What the parser knows of an entry. */
  datatype Entry = Entry(
    usedZip64: bool, uncompressed: nat, compressed: nat, localHeader: nat,
    mtime: nat, atime: nat, ctime: nat, uid: nat, gid: nat,
    system: nat, mode: nat, aes: Aes, pathname: Option<seq<byte>>)

  /** What a record, or a whole field, does: whether it is accepted, and what the entry is then, or was when it
      failed. */
  datatype Outcome = Outcome(ok: bool, entry: Entry)

  /** The surroundings: is there an entry to name, is there a converter from UTF-8, are name checksums
      compared, what the checksum of a name is, and what the converter makes of some bytes. */
  datatype Env = Env(hasEntry: bool, hasUtf8: bool, ignoreCrc: bool,
                     crc: seq<byte> -> nat, convert: seq<byte> -> Option<seq<byte>>)

  datatype Record = Record(id: nat, body: seq<byte>)

  /** A little-endian number. */
  function Number(s: seq<byte>): nat {
    if s == [] then 0 else Octet(s, 0) + 0x100 * Number(s[1..])
  }

  function Bit(x: nat, b: nat): bool
    requires b > 0
  {
    x / b % 2 == 1
  }

  // ---------- what each record means, as a function of its body alone ----------

  datatype Sized = Malformed | Sized(value: nat, rest: seq<byte>)

  /** A size that was a placeholder is the next eight bytes. */
  function TakeSize(present: nat, rest: seq<byte>): Sized {
    if present != PLACEHOLDER then Sized(present, rest)
    else if |rest| < 8 || Number(rest[..8]) > INT64_MAX then Malformed
    else Sized(Number(rest[..8]), rest[8..])
  }

  function Zip64(e: Entry, body: seq<byte>): Outcome {
    var u := TakeSize(e.uncompressed, body);
    if u.Malformed? then Outcome(false, e.(usedZip64 := true))
    else LaterSizes(e.(usedZip64 := true, uncompressed := u.value), u.rest)
  }

  function LaterSizes(e: Entry, rest: seq<byte>): Outcome {
    var c := TakeSize(e.compressed, rest);
    if c.Malformed? then Outcome(false, e) else LastSize(e.(compressed := c.value), c.rest)
  }

  function LastSize(e: Entry, rest: seq<byte>): Outcome {
    var l := TakeSize(e.localHeader, rest);
    if l.Malformed? then Outcome(false, e) else Outcome(true, e.(localHeader := l.value))
  }

  /** The times after the flag byte; a missing one ends the record. */
  function Times(e: Entry, flags: nat, rest: seq<byte>): Entry {
    if !Bit(flags, 1) then LaterTimes(e, flags, rest)
    else if |rest| < 4 then e
    else LaterTimes(e.(mtime := Number(rest[..4])), flags, rest[4..])
  }

  function LaterTimes(e: Entry, flags: nat, rest: seq<byte>): Entry {
    if !Bit(flags, 2) then LastTime(e, flags, rest)
    else if |rest| < 4 then e
    else LastTime(e.(atime := Number(rest[..4])), flags, rest[4..])
  }

  function LastTime(e: Entry, flags: nat, rest: seq<byte>): Entry {
    if Bit(flags, 4) && |rest| >= 4 then e.(ctime := Number(rest[..4])) else e
  }

  function OldUnix(e: Entry, body: seq<byte>): Entry {
    var e1 := if |body| >= 8 then e.(atime := Number(body[..4]), mtime := Number(body[4..8])) else e;
    if |body| >= 12 then e1.(uid := Le16(body, 8), gid := Le16(body, 10)) else e1
  }

  /** The continuation bytes of the bitmap. */
  function SkipBitmap(last: nat, rest: seq<byte>): (r: seq<byte>)
    ensures |r| <= |rest|
    decreases |rest|
  {
    if Bit(last, 0x80) && rest != [] then SkipBitmap(Octet(rest, 0), rest[1..]) else rest
  }

  /** The mode that external attributes stand for. An MS-DOS entry keeps its file type exactly when it is
      not read-only: stripping the write permissions strips the type with them. */
  function ModeOf(system: nat, attributes: nat): (mode: nat)
    ensures system == 0 ==> (mode / 0x1000 != 0 <==> !Bit(attributes, 1))
  {
    if system == 3 then attributes / 0x1_0000
    else if system == 0 then
      if Bit(attributes, 0x10) then
        if Bit(attributes, 1) then MODE_READ_ONLY_DIRECTORY else MODE_DIRECTORY
      else
        if Bit(attributes, 1) then MODE_READ_ONLY_FILE else MODE_FILE
    else 0
  }

  function ExternalAttributes(e: Entry, bitmap: nat, rest: seq<byte>): Entry {
    if Bit(bitmap, 4) && |rest| >= 4 then e.(mode := ModeOf(e.system, Number(rest[..4]))) else e
  }

  function InternalAttributes(e: Entry, bitmap: nat, rest: seq<byte>): Entry {
    if !Bit(bitmap, 2) then ExternalAttributes(e, bitmap, rest)
    else if |rest| < 2 then e
    else ExternalAttributes(e, bitmap, rest[2..])
  }

  function XlFields(e: Entry, bitmap: nat, rest: seq<byte>): Entry {
    if !Bit(bitmap, 1) then InternalAttributes(e, bitmap, rest)
    else if |rest| < 2 then e
    else InternalAttributes(e.(system := Octet(rest, 1)), bitmap, rest[2..])
  }

  function Xl(e: Entry, body: seq<byte>): Entry {
    if body == [] then e else XlFields(e, Octet(body, 0), SkipBitmap(Octet(body, 0), body[1..]))
  }

  function UnicodePath(e: Entry, body: seq<byte>, env: Env): Entry {
    if |body| < 5 || !env.hasEntry || !env.hasUtf8 then e
    else if !env.ignoreCrc && e.pathname.Some? && env.crc(e.pathname.value) != Number(body[1..5]) then e
    else
      var name := env.convert(body[5..]);
      if name.None? then e else e.(pathname := name)
  }

  function UnixUx(e: Entry, body: seq<byte>): Entry {
    var e1 := if |body| >= 2 then e.(uid := Le16(body, 0)) else e;
    if |body| >= 4 then e1.(gid := Le16(body, 2)) else e1
  }

  function IdOfSize(present: nat, body: seq<byte>, at: nat, size: nat): nat
    requires at + 2 <= |body|
  {
    if size == 2 then Le16(body, at) else if size == 4 && at + 4 <= |body| then Number(body[at..at + 4]) else present
  }

  function NewUnix(e: Entry, body: seq<byte>): Entry {
    if |body| < 1 || body[0] != 1 then e
    else
      var uidSize := if |body| >= 4 then Octet(body, 1) else 0;
      var e1 := if |body| >= 4 then e.(uid := IdOfSize(e.uid, body, 2, uidSize)) else e;
      if |body| >= 2 + uidSize + 3 then
        e1.(gid := IdOfSize(e1.gid, body, 2 + uidSize + 1, Octet(body, 2 + uidSize)))
      else e1
  }

  function WinZipAes(e: Entry, body: seq<byte>): Outcome {
    if |body| < 6 then Outcome(false, e)
    else if body[2] == 'A' as int && body[3] == 'E' as int then
      Outcome(true, e.(aes := Aes(Le16(body, 0), Octet(body, 4), Octet(body, 5))))
    else Outcome(true, e)
  }

  /** One record. */
  function Apply(e: Entry, r: Record, env: Env): Outcome {
    match r.id
    case 0x0001 => Zip64(e, r.body)
    case 0x5455 => if r.body == [] then Outcome(false, e) else Outcome(true, Times(e, Octet(r.body, 0), r.body[1..]))
    case 0x5855 => Outcome(true, OldUnix(e, r.body))
    case 0x6c78 => Outcome(true, Xl(e, r.body))
    case 0x7075 => Outcome(true, UnicodePath(e, r.body, env))
    case 0x7855 => Outcome(true, UnixUx(e, r.body))
    case 0x7875 => Outcome(true, NewUnix(e, r.body))
    case 0x9901 => WinZipAes(e, r.body)
    case _ => Outcome(true, e)
  }

  // ---------- laws of the records ----------

  /** The bytes of `x`, least first. */
  function LittleEndian(x: nat, n: nat): (s: seq<byte>)
    ensures |s| == n
    decreases n
  {
    if n == 0 then [] else [x % 0x100] + LittleEndian(x / 0x100, n - 1)
  }

  lemma {:induction false} NumberComesBack(x: nat, n: nat)
    requires x < Pow256(n)
    ensures Number(LittleEndian(x, n)) == x
    decreases n
  {
    if n > 0 {
      var s := LittleEndian(x, n);
      NumberComesBack(x / 0x100, n - 1);
      assert s[1..] == LittleEndian(x / 0x100, n - 1);
    }
  }

  /** Words and longs that fit are read back. */
  lemma WordComesBack(x: nat)
    ensures x < 0x1_0000_0000 ==> Number(LittleEndian(x, 4)) == x
    ensures x <= INT64_MAX ==> Number(LittleEndian(x, 8)) == x
  {
    assert Pow256(4) == 0x1_0000_0000;
    assert Pow256(6) == 0x1_0000_0000_0000;
    assert Pow256(8) == 0x1_0000_0000_0000_0000;
    if x < 0x1_0000_0000 {
      NumberComesBack(x, 4);
    }
    if x <= INT64_MAX {
      NumberComesBack(x, 8);
    }
  }

  function Long(body: seq<byte>, k: nat): nat
    requires 8 * k + 8 <= |body|
  {
    Number(body[8 * k..8 * k + 8])
  }

  /** The `n`-th long from the start is there and is no larger than an int64. */
  predicate LongFits(body: seq<byte>, k: nat) {
    8 * k + 8 <= |body| && Long(body, k) <= INT64_MAX
  }

  /** The first `n` longs are. */
  predicate LongsFit(body: seq<byte>, n: nat) {
    n == 0 || (LongsFit(body, n - 1) && LongFits(body, n - 1))
  }

  function Placeholder(size: nat): nat {
    if size == PLACEHOLDER then 1 else 0
  }

  /** A zip64 record is accepted exactly when there is a long that fits for each placeholder, and then the placeholders
      are replaced by them in the order of the format. */
  lemma Zip64Exactly(e: Entry, body: seq<byte>)
    ensures var u := Placeholder(e.uncompressed); var c := u + Placeholder(e.compressed);
            var l := c + Placeholder(e.localHeader);
            && (Zip64(e, body).ok <==> LongsFit(body, l))
            && (Zip64(e, body).ok ==>
                  Zip64(e, body).entry == e.(
                    usedZip64 := true,
                    uncompressed := if u > 0 then Long(body, 0) else e.uncompressed,
                    compressed := if c > u then Long(body, u) else e.compressed,
                    localHeader := if l > c then Long(body, c) else e.localHeader))
  {
    var u := Placeholder(e.uncompressed);
    var c := u + Placeholder(e.compressed);
    TakeAt(e.uncompressed, body, 0);
    TakeAt(e.compressed, body, u);
    TakeAt(e.localHeader, body, c);
    assert body[0..] == body;
    assert LongsFit(body, 1) == LongFits(body, 0);
    assert LongsFit(body, 2) == (LongsFit(body, 1) && LongFits(body, 1));
    assert LongsFit(body, 3) == (LongsFit(body, 2) && LongFits(body, 2));
  }

  /** Taking a size where `k` longs have gone. */
  lemma TakeAt(present: nat, body: seq<byte>, k: nat)
    ensures 8 * k <= |body| ==>
              TakeSize(present, body[8 * k..]) ==
              if present != PLACEHOLDER then Sized(present, body[8 * k..])
              else if LongFits(body, k) then Sized(Long(body, k), body[8 * (k + 1)..]) else Malformed
  {
    if 8 * k + 8 <= |body| {
      assert body[8 * k..][..8] == body[8 * k..8 * k + 8];
      assert body[8 * k..][8..] == body[8 * (k + 1)..];
    }
  }

  /** A writer's zip64 record for sizes that are all placeholders is read back. */
  lemma Zip64ComesBack(e: Entry, u: nat, c: nat, l: nat, env: Env)
    requires e.uncompressed == e.compressed == e.localHeader == 0xffff_ffff
    requires u < 0x8000_0000_0000_0000 && c < 0x8000_0000_0000_0000 && l < 0x8000_0000_0000_0000
    ensures Apply(e, Record(0x0001, LittleEndian(u, 8) + LittleEndian(c, 8) + LittleEndian(l, 8)), env) ==
            Outcome(true, e.(usedZip64 := true, uncompressed := u, compressed := c, localHeader := l))
  {
    hide Number, LittleEndian, Zip64, Pow256;
    var body := LittleEndian(u, 8) + LittleEndian(c, 8) + LittleEndian(l, 8);
    assert body[0..8] == LittleEndian(u, 8) && body[8..16] == LittleEndian(c, 8) && body[16..24] == LittleEndian(l, 8);
    WordComesBack(u);
    WordComesBack(c);
    WordComesBack(l);
    assert Long(body, 0) == u && Long(body, 1) == c && Long(body, 2) == l;
    assert LongFits(body, 0) && LongFits(body, 1) && LongFits(body, 2);
    assert LongsFit(body, 1);
    assert LongsFit(body, 2);
    assert LongsFit(body, 3);
    Zip64Exactly(e, body);
  }

  /** The times of a writer, whichever of them are there, are read back. */
  lemma TimesComeBack(e: Entry, m: Option<word>, a: Option<word>, c: Option<word>, env: Env)
    ensures var flags := (if m.Some? then 1 else 0) + (if a.Some? then 2 else 0) + (if c.Some? then 4 else 0);
            Apply(e, Record(0x5455, [flags] + (TimeBytes(m) + (TimeBytes(a) + TimeBytes(c)))), env) ==
            Outcome(true, e.(mtime := OrElse(m, e.mtime), atime := OrElse(a, e.atime), ctime := OrElse(c, e.ctime)))
  {
    hide Times, TimeBytes, OrElse;
    var flags := (if m.Some? then 1 else 0) + (if a.Some? then 2 else 0) + (if c.Some? then 4 else 0);
    var rest := TimeBytes(m) + (TimeBytes(a) + TimeBytes(c));
    TimesInOrder(e, flags, m, a, c);
    assert Octet([flags] + rest, 0) == flags && ([flags] + rest)[1..] == rest;
  }

  lemma TimesInOrder(e: Entry, flags: nat, m: Option<word>, a: Option<word>, c: Option<word>)
    requires flags == (if m.Some? then 1 else 0) + (if a.Some? then 2 else 0) + (if c.Some? then 4 else 0)
    ensures Times(e, flags, TimeBytes(m) + (TimeBytes(a) + TimeBytes(c))) ==
            e.(mtime := OrElse(m, e.mtime), atime := OrElse(a, e.atime), ctime := OrElse(c, e.ctime))
  {
    var last := TimeBytes(c);
    var later := TimeBytes(a) + last;
    hide Number, LittleEndian;
    FirstTime(m, later);
    FirstTime(a, last);
    FirstTime(c, []);
    assert last + [] == last;
  }

  function TimeBytes(t: Option<word>): seq<byte> {
    if t.Some? then LittleEndian(t.value, 4) else []
  }

  function OrElse(t: Option<word>, present: nat): nat {
    if t.Some? then t.value else present
  }

  lemma FirstTime(t: Option<word>, rest: seq<byte>)
    ensures t.Some? ==>
              var s := TimeBytes(t) + rest; |s| >= 4 && Number(s[..4]) == t.value && s[4..] == rest
    ensures t.None? ==> TimeBytes(t) + rest == rest
  {
    if t.Some? {
      WordComesBack(t.value);
      assert (TimeBytes(t) + rest)[..4] == TimeBytes(t);
    }
  }

  /** Ids of two bytes or four, in any combination, are read back. */
  lemma NewUnixComesBack(e: Entry, uid: nat, uidSize: nat, gid: nat, gidSize: nat, env: Env)
    requires uidSize == 2 || uidSize == 4
    requires gidSize == 2 || gidSize == 4
    requires uid < Pow256(uidSize) && gid < Pow256(gidSize)
    ensures var ids := LittleEndian(uid, uidSize) + ([gidSize] + LittleEndian(gid, gidSize));
            Apply(e, Record(0x7875, [1, uidSize] + ids), env) == Outcome(true, e.(uid := uid, gid := gid))
  {
    hide Number, LittleEndian, Pow256, IdOfSize;
    var a, b := LittleEndian(uid, uidSize), LittleEndian(gid, gidSize);
    var body := [1, uidSize] + (a + ([gidSize] + b));
    IdsInside(a, b, uidSize, gidSize);
    IdComesBack(e.uid, body, 2, uid, uidSize);
    IdComesBack(e.gid, body, 2 + uidSize + 1, gid, gidSize);
  }

  lemma IdsInside(a: seq<byte>, b: seq<byte>, m: byte, n: byte)
    requires |a| == m && |b| == n
    ensures var body := [1, m] + (a + ([n] + b));
            && body[0] == 1 && body[1] == m && body[2..2 + m] == a
            && body[2 + m] == n && body[2 + m + 1..2 + m + 1 + n] == b
  {
    var tail := a + ([n] + b);
    var body := [1, m] + tail;
    assert body[2..] == tail;
    assert tail[m..] == [n] + b && body[2 + m..] == [n] + b;
  }

  lemma IdComesBack(present: nat, body: seq<byte>, at: nat, id: nat, size: nat)
    requires (size == 2 || size == 4) && id < Pow256(size)
    requires at + size <= |body| && body[at..at + size] == LittleEndian(id, size)
    ensures IdOfSize(present, body, at, size) == id
  {
    NumberComesBack(id, size);
    if size == 2 {
      var s := body[at..at + 2];
      assert s[0] == body[at] && s[1] == body[at + 1] && s[1..][1..] == [];
      assert Number(s) == Octet(s, 0) + 0x100 * (Octet(s[1..], 0) + 0x100 * Number(s[1..][1..]));
    }
  }

  /** A word or long that lies in a body, whatever is around it. */
  lemma NumberInside(a: seq<byte>, x: nat, n: nat, b: seq<byte>)
    requires x < Pow256(n)
    ensures var body := a + (LittleEndian(x, n) + b);
            && body[|a|..|a| + n] == LittleEndian(x, n) && Number(body[|a|..|a| + n]) == x
            && (n == 2 ==> Le16(body, |a|) == x)
  {
    hide Pow256;
    var body := a + (LittleEndian(x, n) + b);
    assert body[|a|..|a| + n] == LittleEndian(x, n);
    NumberComesBack(x, n);
    if n == 2 {
      TwoBytes(x, body[|a|..|a| + 2]);
      assert Octet(body, |a|) == Octet(body[|a|..|a| + 2], 0) && Octet(body, |a| + 1) == Octet(body[|a|..|a| + 2], 1);
    }
  }

  lemma TwoBytes(x: nat, s: seq<byte>)
    requires s == LittleEndian(x, 2) && Number(s) == x
    ensures Octet(s, 0) + 0x100 * Octet(s, 1) == x
  {
    assert s[1..][1..] == [];
    assert Number(s) == Octet(s, 0) + 0x100 * (Octet(s[1..], 0) + 0x100 * Number(s[1..][1..]));
  }

  lemma LeastFirst()
    ensures Number([0x78, 0x56, 0x34, 0x12]) == 0x1234_5678
  {
    var s := [0x78, 0x56, 0x34, 0x12];
    assert s[1..] == [0x56, 0x34, 0x12] && s[1..][1..] == [0x34, 0x12] && s[1..][1..][1..] == [0x12];
    assert s[1..][1..][1..][1..] == [];
  }

  lemma SmallPowers()
    ensures Pow256(2) == 0x1_0000 && Pow256(4) == 0x1_0000_0000
  {
    assert Pow256(1) == 0x100;
  }

  /** The times of the old Unix record, and its ids if they are there, are read back. */
  lemma OldUnixComesBack(e: Entry, atime: word, mtime: word, uid: nat, gid: nat, env: Env)
    requires uid < 0x1_0000 && gid < 0x1_0000
    ensures var times := LittleEndian(atime, 4) + LittleEndian(mtime, 4);
            && Apply(e, Record(0x5855, times), env) == Outcome(true, e.(atime := atime, mtime := mtime))
            && Apply(e, Record(0x5855, times + (LittleEndian(uid, 2) + LittleEndian(gid, 2))), env) ==
               Outcome(true, e.(atime := atime, mtime := mtime, uid := uid, gid := gid))
  {
    hide Number, LittleEndian, Le16;
    var times, ids := LittleEndian(atime, 4) + LittleEndian(mtime, 4), LittleEndian(uid, 2) + LittleEndian(gid, 2);
    TimesInside(atime, mtime, ids);
    TimesInside(atime, mtime, []);
    assert times + [] == times;
    IdsBehind(times, uid, gid);
  }

  lemma TimesInside(atime: word, mtime: word, rest: seq<byte>)
    ensures var body := LittleEndian(atime, 4) + LittleEndian(mtime, 4) + rest;
            Number(body[..4]) == atime && Number(body[4..8]) == mtime
  {
    hide Number, LittleEndian;
    var a, m := LittleEndian(atime, 4), LittleEndian(mtime, 4);
    assert (a + m + rest)[..4] == a && (a + m + rest)[4..8] == m;
    WordComesBack(atime);
    WordComesBack(mtime);
  }

  lemma IdsBehind(times: seq<byte>, uid: nat, gid: nat)
    requires |times| == 8 && uid < 0x1_0000 && gid < 0x1_0000
    ensures var body := times + (LittleEndian(uid, 2) + LittleEndian(gid, 2));
            Le16(body, 8) == uid && Le16(body, 10) == gid
  {
    hide Number, LittleEndian, Pow256;
    SmallPowers();
    var u, g := LittleEndian(uid, 2), LittleEndian(gid, 2);
    NumberInside(times, uid, 2, g);
    NumberInside(times + u, gid, 2, []);
    assert times + u + (g + []) == times + (u + g);
  }

  lemma UnixUxComesBack(e: Entry, uid: nat, gid: nat, env: Env)
    requires uid < 0x1_0000 && gid < 0x1_0000
    ensures Apply(e, Record(0x7855, LittleEndian(uid, 2) + LittleEndian(gid, 2)), env) ==
            Outcome(true, e.(uid := uid, gid := gid))
  {
    hide Number, LittleEndian, Pow256;
    SmallPowers();
    var u, g := LittleEndian(uid, 2), LittleEndian(gid, 2);
    NumberInside([], uid, 2, g);
    NumberInside(u, gid, 2, []);
    assert [] + (u + g) == u + g == u + (g + []);
  }

  /** The AES record is read back, whatever follows the low byte of the compression method. One of another maker means
      nothing, and a short one fails. */
  lemma WinZipAesComesBack(e: Entry, vendor: nat, maker: seq<byte>, strength: byte, compression: byte, more: seq<byte>,
                           env: Env)
    requires vendor < 0x1_0000 && |maker| == 2
    ensures var body := LittleEndian(vendor, 2) + (maker + ([strength, compression] + more));
            Apply(e, Record(0x9901, body), env) ==
            Outcome(true,
              if maker == ['A' as int, 'E' as int] then e.(aes := Aes(vendor, strength, compression)) else e)
    ensures Apply(e, Record(0x9901, LittleEndian(vendor, 2) + (maker + [strength])), env) == Outcome(false, e)
  {
    hide Number, LittleEndian, Pow256;
    SmallPowers();
    var v, tail := LittleEndian(vendor, 2), maker + ([strength, compression] + more);
    NumberInside([], vendor, 2, tail);
    assert [] + (v + tail) == v + tail;
    assert maker == [maker[0], maker[1]];
    assert (v + tail)[2..] == tail && tail[2..] == [strength, compression] + more;
  }

  /** The Unicode path takes effect exactly if there is an entry and a converter, the name converts, and its checksum is
      that of the present name, or is not compared. */
  lemma UnicodePathComesBack(e: Entry, version: byte, crc: word, name: seq<byte>, env: Env)
    ensures Apply(e, Record(0x7075, [version] + (LittleEndian(crc, 4) + name)), env) ==
            Outcome(true,
              if env.hasEntry && env.hasUtf8 && env.convert(name).Some?
                 && (env.ignoreCrc || e.pathname.None? || env.crc(e.pathname.value) == crc)
              then e.(pathname := env.convert(name)) else e)
  {
    hide Number, LittleEndian, Pow256;
    SmallPowers();
    NumberInside([version], crc, 4, name);
    var body := [version] + (LittleEndian(crc, 4) + name);
    assert body[5..] == name;
  }

  /** The first byte of a bitmap and its continuation bytes, all but the last of which say that there are more. */
  predicate BitmapBytes(first: byte, more: seq<byte>) {
    && (first >= 0x80 <==> more != [])
    && (forall i :: 0 <= i < |more| ==> (more[i] >= 0x80 <==> i < |more| - 1))
  }

  lemma {:induction false} BitmapIsPassed(first: byte, more: seq<byte>, rest: seq<byte>)
    requires BitmapBytes(first, more)
    ensures SkipBitmap(first, more + rest) == rest
    decreases |more|
  {
    assert first >= 0x80 <==> Bit(first, 0x80);
    if more == [] {
      assert more + rest == rest;
    } else {
      var s := more + rest;
      assert Octet(s, 0) == more[0] && s[1..] == more[1..] + rest;
      BitmapIsPassed(more[0], more[1..], rest);
    }
  }

  /** The fields of the experimental record are read back, whichever of them are there: of the version made by, its
      upper byte; of the attributes, the mode they stand for on the system then known. */
  lemma XlComesBack(e: Entry, version: Option<seq<byte>>, inner: Option<seq<byte>>, outer: Option<word>, spare: nat,
                    more: seq<byte>, env: Env)
    requires (version.Some? ==> |version.value| == 2) && (inner.Some? ==> |inner.value| == 2)
    requires var flags := 8 * spare + (if version.Some? then 1 else 0) + (if inner.Some? then 2 else 0) +
                          (if outer.Some? then 4 else 0);
             flags < 0x100 && BitmapBytes(flags, more)
    ensures var flags := 8 * spare + (if version.Some? then 1 else 0) + (if inner.Some? then 2 else 0) +
                         (if outer.Some? then 4 else 0);
            var system: nat := if version.Some? then version.value[1] else e.system;
            Apply(e, Record(0x6c78, [flags] + (more + (Given(version) + (Given(inner) + TimeBytes(outer))))), env) ==
            Outcome(true, e.(system := system,
                             mode := if outer.Some? then ModeOf(system, outer.value) else e.mode))
  {
    hide SkipBitmap, ModeOf, XlFields, Given, TimeBytes;
    var flags := 8 * spare + (if version.Some? then 1 else 0) + (if inner.Some? then 2 else 0) +
                 (if outer.Some? then 4 else 0);
    var fields := Given(version) + (Given(inner) + TimeBytes(outer));
    var body := [flags] + (more + fields);
    BitmapIsPassed(flags, more, fields);
    assert Octet(body, 0) == flags && body[1..] == more + fields;
    XlInOrder(e, version, inner, outer, spare);
  }

  lemma XlInOrder(e: Entry, version: Option<seq<byte>>, inner: Option<seq<byte>>, outer: Option<word>, spare: nat)
    requires (version.Some? ==> |version.value| == 2) && (inner.Some? ==> |inner.value| == 2)
    ensures var flags := 8 * spare + (if version.Some? then 1 else 0) + (if inner.Some? then 2 else 0) +
                         (if outer.Some? then 4 else 0);
            var system: nat := if version.Some? then version.value[1] else e.system;
            XlFields(e, flags, Given(version) + (Given(inner) + TimeBytes(outer))) ==
            e.(system := system, mode := if outer.Some? then ModeOf(system, outer.value) else e.mode)
  {
    hide Number, LittleEndian, ModeOf, Bit;
    var last := TimeBytes(outer);
    FlagBits(spare, version.Some?, inner.Some?, outer.Some?);
    FirstTime(outer, []);
    assert last + [] == last;
    GivenFirst(version, Given(inner) + last);
    GivenFirst(inner, last);
  }

  function Given(field: Option<seq<byte>>): seq<byte> {
    if field.Some? then field.value else []
  }

  lemma GivenFirst(field: Option<seq<byte>>, rest: seq<byte>)
    requires field.Some? ==> |field.value| == 2
    ensures field.Some? ==>
              var s := Given(field) + rest; |s| >= 2 && Octet(s, 1) == field.value[1] && s[2..] == rest
    ensures field.None? ==> Given(field) + rest == rest
  {
  }

  lemma FlagBits(spare: nat, a: bool, b: bool, c: bool)
    ensures var flags := 8 * spare + (if a then 1 else 0) + (if b then 2 else 0) + (if c then 4 else 0);
            Bit(flags, 1) == a && Bit(flags, 2) == b && Bit(flags, 4) == c
  {
    var low := (if a then 1 else 0) + (if b then 2 else 0) + (if c then 4 else 0);
    LowBits(spare, low);
  }

  lemma LowBits(spare: nat, low: nat)
    requires low < 8
    ensures (8 * spare + low) / 1 % 2 == low % 2
    ensures (8 * spare + low) / 2 % 2 == low / 2 % 2
    ensures (8 * spare + low) / 4 % 2 == low / 4
  {
    ModUnique(8 * spare + low, 4 * spare + low / 2, low % 2, 2);
    ModUnique(4 * spare + low / 2, 2 * spare + low / 4, low / 2 % 2, 2);
    ModUnique(8 * spare + low, 2 * spare + low / 4, low % 4, 4);
    ModUnique(2 * spare + low / 4, spare, low / 4, 2);
  }

  /** The modes, in octal digits: 040775 and 0100664, or 0555 and 0444 if read-only; the upper half of the attributes of
      a Unix entry, and none for other systems. */
  lemma ModeMeans(system: nat, attributes: nat)
    ensures var directory, readOnly := attributes / 0x10 % 2 == 1, attributes % 2 == 1;
            ModeOf(system, attributes) ==
            if system == 3 then attributes / 0x1_0000
            else if system != 0 then 0
            else if directory then 5 + 8 * (if readOnly then 5 + 8 * 5 else 7 + 8 * (7 + 8 * (0 + 8 * 4)))
            else 4 + 8 * (if readOnly then 4 + 8 * 4 else 6 + 8 * (6 + 8 * (0 + 8 * (0 + 8 * 1))))
  {
  }

  /** Each kind of record changes its own fields alone, and a record of another kind none. */
  lemma OtherFieldsStay(e: Entry, r: Record, env: Env)
    ensures var f := Apply(e, r, env).entry;
            match r.id
            case 0x0001 => e == f.(usedZip64 := e.usedZip64, uncompressed := e.uncompressed, compressed := e.compressed,
                                   localHeader := e.localHeader)
            case 0x5455 => e == f.(mtime := e.mtime, atime := e.atime, ctime := e.ctime)
            case 0x5855 => e == f.(mtime := e.mtime, atime := e.atime, uid := e.uid, gid := e.gid)
            case 0x6c78 => e == f.(system := e.system, mode := e.mode)
            case 0x7075 => e == f.(pathname := e.pathname)
            case 0x7855 => e == f.(uid := e.uid, gid := e.gid)
            case 0x7875 => e == f.(uid := e.uid, gid := e.gid)
            case 0x9901 => e == f.(aes := e.aes)
            case _ => e == f
  {
  }

  /** What a record does to an entry. The framing below is exact whatever that is. */
  type Step = (Entry, Record) -> Outcome

  function Meaning(env: Env): Step {
    (e, r) => Apply(e, r, env)
  }

  function ApplyAll(e: Entry, records: seq<Record>, step: Step): Outcome
    decreases |records|
  {
    if records == [] then Outcome(true, e)
    else
      var next := step(e, records[0]);
      if !next.ok then next else ApplyAll(next.entry, records[1..], step)
  }

  // ---------- framing ----------

  predicate ValidRecords(records: seq<Record>)
    decreases |records|
  {
    records != [] ==> records[0].id < 0x1_0000 && |records[0].body| < 0x1_0000 && ValidRecords(records[1..])
  }

  function Bytes16(x: nat): (b: seq<byte>)
    requires x < 0x1_0000
    ensures |b| == 2 && Le16(b, 0) == x
  {
    [x % 0x100, x / 0x100]
  }

  function Header(id: nat, size: nat): (h: seq<byte>)
    requires id < 0x1_0000 && size < 0x1_0000
    ensures |h| == 4 && Le16(h, 0) == id && Le16(h, 2) == size
  {
    Bytes16(id) + Bytes16(size)
  }

  /** How a writer lays records out: section 4.5 of the PKWARE APPNOTE. */
  function Encode(records: seq<Record>): seq<byte>
    requires ValidRecords(records)
    decreases |records|
  {
    if records == [] then []
    else Header(records[0].id, |records[0].body|) + (records[0].body + Encode(records[1..]))
  }

  /** What is parsed from `p` on: records until fewer than four bytes are left. */
  function Parse(e: Entry, p: seq<byte>, step: Step): Outcome
    decreases |p|
  {
    if |p| < 4 then Outcome(true, e)
    else
      var end := 4 + Le16(p, 2);
      if end > |p| then Outcome(false, e)
      else
        var next := step(e, Record(Le16(p, 0), p[4..end]));
        if !next.ok then next else Parse(next.entry, p[end..], step)
  }

  /** The whole field: fewer than four bytes in all must be zeros. */
  function ParseField(e: Entry, p: seq<byte>, step: Step): Outcome {
    if |p| < 4 && p != Zeros(|p|) then Outcome(false, e) else Parse(e, p, step)
  }

  lemma HeaderComesBack(h: seq<byte>)
    requires |h| == 4
    ensures Header(Le16(h, 0), Le16(h, 2)) == h
  {
    var x, y := Le16(h, 0), Le16(h, 2);
    assert x % 0x100 == Octet(h, 0) && x / 0x100 == Octet(h, 1);
    assert y % 0x100 == Octet(h, 2) && y / 0x100 == Octet(h, 3);
  }

  lemma FirstRecord(h: seq<byte>, body: seq<byte>, rest: seq<byte>)
    requires |h| == 4
    ensures var p := h + (body + rest); var end := 4 + |body|;
            Le16(p, 0) == Le16(h, 0) && Le16(p, 2) == Le16(h, 2) && p[4..end] == body && p[end..] == rest
  {
  }

  /** Exactly the records written are applied, in order, whatever they hold; then parsing goes on with what
      comes after them, which at most three bytes end. */
  lemma {:induction false} ParsesWhatIsEncoded(e: Entry, records: seq<Record>, after: seq<byte>, step: Step)
    requires ValidRecords(records)
    ensures var all := ApplyAll(e, records, step);
            Parse(e, Encode(records) + after, step) == if !all.ok then all else Parse(all.entry, after, step)
    ensures |after| < 4 ==> Parse(e, Encode(records) + after, step) == ApplyAll(e, records, step)
    decreases |records|
  {
    if records == [] {
      assert Encode(records) + after == after;
    } else {
      var r, rest := records[0], Encode(records[1..]) + after;
      var h := Header(r.id, |r.body|);
      FirstRecord(h, r.body, rest);
      Regroup(h, r.body, Encode(records[1..]), after);
      assert Encode(records) + after == h + (r.body + rest);
      var next := step(e, r);
      if next.ok {
        ParsesWhatIsEncoded(next.entry, records[1..], after, step);
      }
    }
  }

  /** A field of one record, in bytes: its kind, its size, each least byte first, and its body. */
  lemma OneRecord(e: Entry, id: nat, body: seq<byte>, env: Env)
    requires id < 0x1_0000 && |body| < 0x1_0000
    ensures ParseField(e, [id % 0x100, id / 0x100, |body| % 0x100, |body| / 0x100] + body, Meaning(env)) ==
            Apply(e, Record(id, body), env)
  {
    hide Apply;
    var h := [id % 0x100, id / 0x100, |body| % 0x100, |body| / 0x100];
    assert Le16(h, 0) == id && Le16(h, 2) == |body|;
    FirstRecord(h, body, []);
    assert h + (body + []) == h + body;
    assert Parse(e, h + body, Meaning(env)) == Meaning(env)(e, Record(id, body));
  }

  /** A record at the front of `rest` that overflows the field, or that fails by itself. */
  predicate Fails(e: Entry, rest: seq<byte>, step: Step) {
    |rest| >= 4 &&
    var end := 4 + Le16(rest, 2);
    end > |rest| || !step(e, Record(Le16(rest, 0), rest[4..end])).ok
  }

  /** `p` is `records` laid out, all applied, and then `after`: at most three bytes if `p` is parsed, and a
      record that overflows or fails if it is not. */
  predicate Explains(e: Entry, p: seq<byte>, records: seq<Record>, after: seq<byte>, step: Step) {
    var all := ApplyAll(e, records, step);
    && ValidRecords(records) && p == Encode(records) + after && all.ok
    && Parse(e, p, step) == Parse(all.entry, after, step)
    && (if Parse(e, p, step).ok then |after| < 4 && Parse(e, p, step) == all else Fails(all.entry, after, step))
  }

  /** Every input can be read that way. */
  lemma {:induction false} EveryInputIsRecords(e: Entry, p: seq<byte>, step: Step)
    returns (records: seq<Record>, after: seq<byte>)
    ensures Explains(e, p, records, after, step)
    decreases |p|
  {
    if |p| < 4 || Fails(e, p, step) {
      records, after := [], p;
      assert Encode([]) + p == p;
    } else {
      var end := 4 + Le16(p, 2);
      var more;
      more, after := EveryInputIsRecords(step(e, Record(Le16(p, 0), p[4..end])).entry, p[end..], step);
      records := [Record(Le16(p, 0), p[4..end])] + more;
      OneMoreRecord(e, p, more, after, step);
    }
  }

  lemma OneMoreRecord(e: Entry, p: seq<byte>, more: seq<Record>, after: seq<byte>, step: Step)
    requires |p| >= 4 && !Fails(e, p, step)
    requires var end := 4 + Le16(p, 2);
             Explains(step(e, Record(Le16(p, 0), p[4..end])).entry, p[end..], more, after, step)
    ensures Explains(e, p, [Record(Le16(p, 0), p[4..4 + Le16(p, 2)])] + more, after, step)
  {
    var end := 4 + Le16(p, 2);
    var h, body := p[..4], p[4..end];
    var r := Record(Le16(p, 0), body);
    ParseStep(e, p, step);
    EncodeStep(e, r, more, step);
    assert Le16(h, 0) == r.id && Le16(h, 2) == |body|;
    HeaderComesBack(h);
    SplitThree(p, end);
    Regroup(h, body, Encode(more), after);
  }

  lemma ParseStep(e: Entry, p: seq<byte>, step: Step)
    requires |p| >= 4 && !Fails(e, p, step)
    ensures var end := 4 + Le16(p, 2);
            Parse(e, p, step) == Parse(step(e, Record(Le16(p, 0), p[4..end])).entry, p[end..], step)
  {
  }

  lemma EncodeStep(e: Entry, r: Record, more: seq<Record>, step: Step)
    requires r.id < 0x1_0000 && |r.body| < 0x1_0000 && ValidRecords(more) && step(e, r).ok
    ensures ValidRecords([r] + more)
    ensures Encode([r] + more) == Header(r.id, |r.body|) + (r.body + Encode(more))
    ensures ApplyAll(e, [r] + more, step) == ApplyAll(step(e, r).entry, more, step)
  {
    var records := [r] + more;
    assert records[0] == r && records[1..] == more;
  }

  lemma SplitThree(p: seq<byte>, end: nat)
    requires 4 <= end <= |p|
    ensures p == p[..4] + (p[4..end] + p[end..])
  {
  }

  lemma Regroup(a: seq<byte>, b: seq<byte>, c: seq<byte>, d: seq<byte>)
    ensures (a + (b + c)) + d == a + (b + (c + d))
  {
  }

  // ---------- the parser, which moves `offset` and `datasize` and updates the entry in place ----------

  lemma Slide(p: seq<byte>, offset: nat, k: nat, end: nat)
    requires offset + k <= end <= |p|
    ensures p[offset..end][k..] == p[offset + k..end]
  {
  }

  lemma OctetAt(p: seq<byte>, offset: nat, end: nat, k: nat)
    requires offset + k < end <= |p|
    ensures Octet(p[offset..end], k) == Octet(p, offset + k)
  {
  }

  lemma Le16At(p: seq<byte>, offset: nat, end: nat, k: nat)
    requires offset + k + 2 <= end <= |p|
    ensures Le16(p[offset..end], k) == Le16(p, offset + k)
  {
  }

  lemma Cut(p: seq<byte>, offset: nat, end: nat, k: nat, n: nat)
    requires offset + k + n <= end <= |p|
    ensures p[offset..end][k..k + n] == p[offset + k..offset + k + n]
    ensures k == 0 ==> p[offset..end][..n] == p[offset..offset + n]
  {
    SliceOfSlice(p, offset, end, k, k + n);
  }

  lemma SliceOfSlice(s: seq<byte>, a: nat, b: nat, c: nat, d: nat)
    requires c <= d && a + d <= b <= |s|
    ensures s[a..b][c..d] == s[a + c..a + d]
  {
    var x, y := s[a..b][c..d], s[a + c..a + d];
    assert |x| == |y|;
    assert forall i :: 0 <= i < |x| ==> x[i] == y[i];
  }

  class ZipEntry {
    var usedZip64: bool
    var uncompressed: nat
    var compressed: nat
    var localHeader: nat
    var mtime: nat
    var atime: nat
    var ctime: nat
    var uid: nat
    var gid: nat
    var system: nat
    var mode: nat
    var aes: Aes
    var pathname: Option<seq<byte>>

    function State(): Entry
      reads this
    {
      Entry(usedZip64, uncompressed, compressed, localHeader, mtime, atime, ctime, uid, gid, system,
            mode, aes, pathname)
    }

    /** One size of a zip64 record: left alone unless it is a placeholder. */
    static method ReadSize(present: nat, p: seq<byte>, offset: nat, datasize: nat, ghost end: nat)
        returns (ok: bool, value: nat, newOffset: nat, newSize: nat)
      requires offset + datasize == end <= |p|
      ensures newOffset + newSize == end
      ensures TakeSize(present, p[offset..end]) == if ok then Sized(value, p[newOffset..end]) else Malformed
    {
      ok, value, newOffset, newSize := true, present, offset, datasize;
      if present == PLACEHOLDER {
        if datasize >= 8 { Cut(p, offset, end, 0, 8); }
        if datasize < 8 || Number(p[offset..offset + 8]) > INT64_MAX {
          ok := false;
          return;
        }
        Slide(p, offset, 8, end);
        value := Number(p[offset..offset + 8]);
        newOffset := offset + 8;
        newSize := datasize - 8;
      }
    }

    method ReadZip64(p: seq<byte>, offset: nat, datasize: nat) returns (ok: bool, newOffset: nat, newSize: nat)
      requires offset + datasize <= |p|
      modifies this`usedZip64, this`uncompressed, this`compressed, this`localHeader
      ensures newOffset + newSize == offset + datasize
      ensures Zip64(old(State()), p[offset..offset + datasize]) == Outcome(ok, State())
    {
      ghost var end := offset + datasize;
      ghost var goal := Zip64(State(), p[offset..end]);
      var value;
      usedZip64 := true;
      ok, value, newOffset, newSize := ReadSize(uncompressed, p, offset, datasize, end);
      if !ok { return; }
      uncompressed := value;
      assert goal == LaterSizes(State(), p[newOffset..end]);
      ok, value, newOffset, newSize := ReadSize(compressed, p, newOffset, newSize, end);
      if !ok { return; }
      compressed := value;
      assert goal == LastSize(State(), p[newOffset..end]);
      ok, value, newOffset, newSize := ReadSize(localHeader, p, newOffset, newSize, end);
      if !ok { return; }
      localHeader := value;
    }

    /** The next four bytes, if the record has them. */
    static method ReadTime(p: seq<byte>, offset: nat, datasize: nat, ghost end: nat)
        returns (ok: bool, value: nat, newOffset: nat, newSize: nat)
      requires offset + datasize == end <= |p|
      ensures newOffset + newSize == end && (ok <==> datasize >= 4)
      ensures ok ==> value == Number(p[offset..end][..4]) && p[newOffset..end] == p[offset..end][4..]
    {
      ok, value, newOffset, newSize := datasize >= 4, 0, offset, datasize;
      if ok {
        Cut(p, offset, end, 0, 4);
        Slide(p, offset, 4, end);
        value, newOffset, newSize := Number(p[offset..offset + 4]), offset + 4, datasize - 4;
      }
    }

    method ReadTimes(p: seq<byte>, offset: nat, datasize: nat) returns (newOffset: nat, newSize: nat)
      requires offset + datasize <= |p| && datasize > 0
      modifies this`mtime, this`atime, this`ctime
      ensures newOffset + newSize == offset + datasize
      ensures State() == Times(old(State()), Octet(p, offset), p[offset + 1..offset + datasize])
    {
      ghost var end := offset + datasize;
      var flags := Octet(p, offset);
      ghost var goal := Times(State(), flags, p[offset + 1..end]);
      var ok, value;
      newOffset, newSize := offset + 1, datasize - 1;
      if Bit(flags, 1) {
        ok, value, newOffset, newSize := ReadTime(p, newOffset, newSize, end);
        if !ok { return; }
        mtime := value;
      }
      assert goal == LaterTimes(State(), flags, p[newOffset..end]);
      if Bit(flags, 2) {
        ok, value, newOffset, newSize := ReadTime(p, newOffset, newSize, end);
        if !ok { return; }
        atime := value;
      }
      assert goal == LastTime(State(), flags, p[newOffset..end]);
      if Bit(flags, 4) {
        ok, value, newOffset, newSize := ReadTime(p, newOffset, newSize, end);
        if !ok { return; }
        ctime := value;
      }
    }

    method ReadOldUnix(p: seq<byte>, offset: nat, datasize: nat)
      requires offset + datasize <= |p|
      modifies this`atime, this`mtime, this`uid, this`gid
      ensures State() == OldUnix(old(State()), p[offset..offset + datasize])
    {
      ghost var end := offset + datasize;
      if datasize >= 8 {
        Cut(p, offset, end, 0, 4);
        Cut(p, offset, end, 4, 4);
        atime := Number(p[offset..offset + 4]);
        mtime := Number(p[offset + 4..offset + 8]);
      }
      if datasize >= 12 {
        Le16At(p, offset, end, 8);
        Le16At(p, offset, end, 10);
        uid := Le16(p, offset + 8);
        gid := Le16(p, offset + 10);
      }
    }

    static method PassBitmap(p: seq<byte>, offset: nat, datasize: nat) returns (newOffset: nat, newSize: nat)
      requires offset + datasize <= |p| && datasize > 0
      ensures newOffset + newSize == offset + datasize
      ensures p[newOffset..offset + datasize] == SkipBitmap(Octet(p, offset), p[offset + 1..offset + datasize])
    {
      ghost var end := offset + datasize;
      var last := Octet(p, offset);
      newOffset, newSize := offset + 1, datasize - 1;
      while Bit(last, 0x80) && newSize >= 1
        invariant newOffset + newSize == end
        invariant SkipBitmap(last, p[newOffset..end]) == SkipBitmap(Octet(p, offset), p[offset + 1..end])
        decreases newSize
      {
        OctetAt(p, newOffset, end, 0);
        Slide(p, newOffset, 1, end);
        last := Octet(p, newOffset);
        newOffset, newSize := newOffset + 1, newSize - 1;
      }
    }

    method SetMode(attributes: nat)
      modifies this`mode
      ensures mode == ModeOf(system, attributes)
    {
      if system == 3 {
        mode := attributes / 0x1_0000;
      } else if system == 0 {
        var readOnly := Bit(attributes, 1);
        if Bit(attributes, 0x10) {
          mode := if readOnly then Masked(MODE_DIRECTORY) else MODE_DIRECTORY;
        } else {
          mode := if readOnly then Masked(MODE_FILE) else MODE_FILE;
        }
      } else {
        mode := 0;
      }
    }

    method ReadXl(p: seq<byte>, offset: nat, datasize: nat) returns (newOffset: nat, newSize: nat)
      requires offset + datasize <= |p|
      modifies this`system, this`mode
      ensures newOffset + newSize == offset + datasize
      ensures State() == Xl(old(State()), p[offset..offset + datasize])
    {
      ghost var end := offset + datasize;
      newOffset, newSize := offset, datasize;
      if datasize < 1 { return; }
      var bitmap := Octet(p, offset);
      OctetAt(p, offset, end, 0);
      Slide(p, offset, 1, end);
      newOffset, newSize := PassBitmap(p, offset, datasize);
      newOffset, newSize := ReadXlFields(p, newOffset, newSize, bitmap);
    }

    method ReadXlFields(p: seq<byte>, offset: nat, datasize: nat, bitmap: nat) returns (newOffset: nat, newSize: nat)
      requires offset + datasize <= |p|
      modifies this`system, this`mode
      ensures newOffset + newSize == offset + datasize
      ensures State() == XlFields(old(State()), bitmap, p[offset..offset + datasize])
    {
      ghost var end := offset + datasize;
      ghost var goal := XlFields(State(), bitmap, p[offset..end]);
      newOffset, newSize := offset, datasize;
      if Bit(bitmap, 1) {
        if newSize < 2 { return; }
        OctetAt(p, newOffset, end, 1);
        Slide(p, newOffset, 2, end);
        system := Le16(p, newOffset) / 0x100;
        newOffset, newSize := newOffset + 2, newSize - 2;
      }
      assert goal == InternalAttributes(State(), bitmap, p[newOffset..end]);
      if Bit(bitmap, 2) {
        if newSize < 2 { return; }
        Slide(p, newOffset, 2, end);
        newOffset, newSize := newOffset + 2, newSize - 2;
      }
      assert goal == ExternalAttributes(State(), bitmap, p[newOffset..end]);
      var ok;
      ok, newOffset, newSize := ReadExternal(p, newOffset, newSize, bitmap);
      if !ok { return; }
      if Bit(bitmap, 8) {
        newOffset, newSize := PassComment(p, newOffset, newSize);
      }
    }

    method ReadExternal(p: seq<byte>, offset: nat, datasize: nat, bitmap: nat)
      returns (ok: bool, newOffset: nat, newSize: nat)
      requires offset + datasize <= |p|
      modifies this`mode
      ensures newOffset + newSize == offset + datasize
      ensures State() == ExternalAttributes(old(State()), bitmap, p[offset..offset + datasize])
    {
      ok, newOffset, newSize := true, offset, datasize;
      if Bit(bitmap, 4) {
        if newSize < 4 { return false, offset, datasize; }
        Cut(p, newOffset, offset + datasize, 0, 4);
        SetMode(Number(p[newOffset..newOffset + 4]));
        newOffset, newSize := newOffset + 4, newSize - 4;
      }
    }

    static method PassComment(p: seq<byte>, offset: nat, datasize: nat) returns (newOffset: nat, newSize: nat)
      requires offset + datasize <= |p|
      ensures newOffset + newSize == offset + datasize
    {
      newOffset, newSize := offset, datasize;
      if newSize < 2 { return; }
      var length := Le16(p, newOffset);
      newOffset, newSize := newOffset + 2, newSize - 2;
      if newSize < length { return; }
      newOffset, newSize := newOffset + length, newSize - length;
    }

    method ReadUnicodePath(p: seq<byte>, offset: nat, datasize: nat, env: Env) returns (newOffset: nat, newSize: nat)
      requires offset + datasize <= |p|
      modifies this`pathname
      ensures newOffset + newSize == offset + datasize
      ensures State() == UnicodePath(old(State()), p[offset..offset + datasize], env)
    {
      ghost var end := offset + datasize;
      newOffset, newSize := offset, datasize;
      if datasize < 5 || !env.hasEntry { return; }
      Slide(p, offset, 5, end);
      Cut(p, offset, end, 1, 4);
      newOffset, newSize := offset + 5, datasize - 5;
      if !env.hasUtf8 { return; }
      if !env.ignoreCrc && pathname.Some? {
        var fileCrc := env.crc(pathname.value);
        if fileCrc != Number(p[newOffset - 4..newOffset]) { return; }
      }
      var name := env.convert(p[newOffset..newOffset + newSize]);
      if name.Some? {
        pathname := name;
      }
    }

    method ReadUnixUx(p: seq<byte>, offset: nat, datasize: nat)
      requires offset + datasize <= |p|
      modifies this`uid, this`gid
      ensures State() == UnixUx(old(State()), p[offset..offset + datasize])
    {
      ghost var end := offset + datasize;
      if datasize >= 2 {
        Le16At(p, offset, end, 0);
        uid := Le16(p, offset);
      }
      if datasize >= 4 {
        Le16At(p, offset, end, 2);
        gid := Le16(p, offset + 2);
      }
    }

    /** A uid or gid of the given size at `at`, or the present one. */
    static method ReadId(present: nat, p: seq<byte>, offset: nat, datasize: nat, at: nat, size: nat) returns (id: nat)
      requires offset + datasize <= |p| && at + 2 <= datasize
      ensures id == IdOfSize(present, p[offset..offset + datasize], at, size)
    {
      id := present;
      if size == 2 {
        Le16At(p, offset, offset + datasize, at);
        id := Le16(p, offset + at);
      } else if size == 4 && datasize >= at + 4 {
        Cut(p, offset, offset + datasize, at, 4);
        id := Number(p[offset + at..offset + at + 4]);
      }
    }

    method ReadNewUnix(p: seq<byte>, offset: nat, datasize: nat)
      requires offset + datasize <= |p|
      modifies this`uid, this`gid
      ensures State() == NewUnix(old(State()), p[offset..offset + datasize])
    {
      ghost var end := offset + datasize;
      if datasize < 1 || Octet(p, offset) != 1 { return; }
      var uidSize := 0;
      if datasize >= 4 {
        OctetAt(p, offset, end, 1);
        uidSize := Octet(p, offset + 1);
        uid := ReadId(uid, p, offset, datasize, 2, uidSize);
      }
      if datasize >= 2 + uidSize + 3 {
        OctetAt(p, offset, end, 2 + uidSize);
        var gidSize := Octet(p, offset + 2 + uidSize);
        gid := ReadId(gid, p, offset, datasize, 2 + uidSize + 1, gidSize);
      }
    }

    method ReadAes(p: seq<byte>, offset: nat, datasize: nat) returns (ok: bool)
      requires offset + datasize <= |p|
      modifies this`aes
      ensures WinZipAes(old(State()), p[offset..offset + datasize]) == Outcome(ok, State())
    {
      if datasize < 6 { return false; }
      if p[offset + 2] == 'A' as int && p[offset + 3] == 'E' as int {
        Le16At(p, offset, offset + datasize, 0);
        aes := Aes(Le16(p, offset), Octet(p, offset + 4), Octet(p, offset + 5));
      }
      return true;
    }

    /** The switch. Whichever branch is taken and wherever it breaks off, `newOffset + newSize` is the end of the
        record, and the entry has become what the record's body alone makes of it. */
    method ReadRecord(id: nat, p: seq<byte>, offset: nat, datasize: nat, env: Env, ghost step: Step)
        returns (ok: bool, newOffset: nat, newSize: nat)
      requires offset + datasize <= |p|
      requires forall e, r {:trigger Apply(e, r, env)} :: step(e, r) == Apply(e, r, env)
      modifies this
      ensures newOffset + newSize == offset + datasize
      ensures step(old(State()), Record(id, p[offset..offset + datasize])) == Outcome(ok, State())
    {
      hide Zip64, Times, OldUnix, Xl, UnicodePath, UnixUx, NewUnix, WinZipAes;
      ok, newOffset, newSize := true, offset, datasize;
      ghost var next := Apply(State(), Record(id, p[offset..offset + datasize]), env);
      match id
      case 0x0001 => ok, newOffset, newSize := ReadZip64(p, offset, datasize);
      case 0x5455 =>
        if datasize == 0 { ok := false; return; }
        OctetAt(p, offset, offset + datasize, 0);
        Slide(p, offset, 1, offset + datasize);
        newOffset, newSize := ReadTimes(p, offset, datasize);
      case 0x5855 => ReadOldUnix(p, offset, datasize);
      case 0x6c78 => newOffset, newSize := ReadXl(p, offset, datasize);
      case 0x7075 => newOffset, newSize := ReadUnicodePath(p, offset, datasize, env);
      case 0x7855 => ReadUnixUx(p, offset, datasize);
      case 0x7875 => ReadNewUnix(p, offset, datasize);
      case 0x9901 => ok := ReadAes(p, offset, datasize);
      case _ =>
    }

    /** The whole field: it succeeds exactly when every record does, and then the entry is the result of
        applying them in order. */
    method ProcessExtra(p: seq<byte>, env: Env) returns (ok: bool)
      modifies this
      ensures ParseField(old(State()), p, Meaning(env)) == Outcome(ok, State())
      ensures |p| < 4 ==> (ok <==> forall i :: 0 <= i < |p| ==> p[i] == 0) && State() == old(State())
    {
      if |p| < 4 {
        ok := AllZero(p);
        return;
      }
      ghost var step := Meaning(env);
      var offset := 0;
      ok := true;
      assert p[0..] == p;
      while ok && offset <= |p| - 4
        invariant offset <= |p|
        invariant Parse(old(State()), p, step) ==
                  if ok then Parse(State(), p[offset..], step) else Outcome(false, State())
        decreases ok, |p| - offset
      {
        ok, offset := NextRecord(p, offset, env, step);
      }
    }

    /** One turn of the loop. */
    method NextRecord(p: seq<byte>, offset: nat, env: Env, ghost step: Step) returns (ok: bool, newOffset: nat)
      requires offset + 4 <= |p|
      requires forall e, r {:trigger Apply(e, r, env)} :: step(e, r) == Apply(e, r, env)
      modifies this
      ensures ok ==> offset < newOffset <= |p|
      ensures newOffset <= |p|
      ensures Parse(old(State()), p[offset..], step) ==
                if ok then Parse(State(), p[newOffset..], step) else Outcome(false, State())
    {
      ParseAt(State(), p, offset, step);
      var id, datasize := Le16(p, offset), Le16(p, offset + 2);
      newOffset := offset + 4;
      if newOffset + datasize > |p| { return false, newOffset; }
      ok, newOffset, datasize := ReadRecord(id, p, newOffset, datasize, env, step);
      newOffset := newOffset + datasize;
    }

    static method AllZero(p: seq<byte>) returns (all: bool)
      ensures all <==> p == Zeros(|p|)
    {
      var i := 0;
      while i < |p|
        invariant i <= |p|
        invariant forall j :: 0 <= j < i ==> p[j] == 0
      {
        if p[i] != 0 { return false; }
        i := i + 1;
      }
      return true;
    }
  }

  /** Parsing from `offset` on, in terms of the whole field. */
  lemma ParseAt(e: Entry, p: seq<byte>, offset: nat, step: Step)
    requires offset + 4 <= |p|
    ensures var start := offset + 4; var end := start + Le16(p, offset + 2);
            Parse(e, p[offset..], step) ==
            if end > |p| then Outcome(false, e)
            else
              var next := step(e, Record(Le16(p, offset), p[start..end]));
              if !next.ok then next else Parse(next.entry, p[end..], step)
  {
    var rest, start := p[offset..], offset + 4;
    var n := Le16(p, offset + 2);
    Le16At(p, offset, |p|, 0);
    Le16At(p, offset, |p|, 2);
    assert rest == p[offset..|p|];
    if start + n <= |p| {
      assert rest[4..4 + n] == p[start..start + n];
      assert rest[4 + n..] == p[start + n..];
    }
  }

  /** `mode & 0555`. */
  function Masked(mode: nat): nat
    requires mode < 0x1_0000
  {
    ((mode as bv16) & 365) as nat
  }
}
