/** Looking for the start of a zip central directory with a skip table, window by window. */
module ZipSearch {
  import opened Bytes

  const LOOK_AHEAD: nat := 20

  const PK12: seq<byte> := ['P' as int, 'K' as int, 1, 2]
  const PK56: seq<byte> := ['P' as int, 'K' as int, 5, 6]
  const PK66: seq<byte> := ['P' as int, 'K' as int, 6, 6]

  /** One of the records the search stops at: PK12, PK56 or PK66. */
  predicate Signature(s: seq<byte>, q: nat) {
    && q + 4 <= |s| && s[q] == 'P' as int && s[q + 1] == 'K' as int
    && ((s[q + 2] == 1 && s[q + 3] == 2) || (s[q + 2] == 5 && s[q + 3] == 6) || (s[q + 2] == 6 && s[q + 3] == 6))
  }

  /** In bytes: 50 4B, and then 01 02, 05 06 or 06 06. */
  lemma SignatureBytes(s: seq<byte>, q: nat)
    requires q + 4 <= |s|
    ensures Signature(s, q) <==>
            s[q..q + 4] == [0x50, 0x4B, 1, 2] || s[q..q + 4] == [0x50, 0x4B, 5, 6] || s[q..q + 4] == [0x50, 0x4B, 6, 6]
  {
    assert s[q..q + 4] == [s[q], s[q + 1], s[q + 2], s[q + 3]];
  }

  ghost predicate NoSignature(s: seq<byte>, from: nat, to: nat) {
    forall q {:trigger Signature(s, q)} :: from <= q < to ==> !Signature(s, q)
  }

  /** How far the search moves on when the byte three ahead is `c` and no record starts here. */
  function Skip(c: byte): (k: nat)
    ensures 1 <= k <= 4
  {
    if c == 'P' as int then 3
    else if c == 'K' as int then 2
    else if c == 1 || c == 5 || c == 6 then 1
    else 4
  }

  /** The table is safe: no record starts at any position it moves past. */
  lemma SkipIsSafe(s: seq<byte>, i: nat)
    requires i + 3 < |s| && !Signature(s, i)
    ensures NoSignature(s, i, i + Skip(s[i + 3]))
  {
    forall q {:trigger Signature(s, q)} | i <= q < i + Skip(s[i + 3])
      ensures !Signature(s, q)
    {
      if q > i {
        var c := s[q + (i + 3 - q)];
        assert i + 3 - q == 2 || i + 3 - q == 1 || i + 3 - q == 0;
      }
    }
  }

  /** And it moves no less than it can: whatever the byte, some stream has a record right where the
      search then looks. */
  lemma SkipIsMaximal(c: byte) returns (s: seq<byte>)
    ensures 3 < |s| && s[3] == c && Signature(s, Skip(c))
  {
    var k := Skip(c);
    var five := c == 5 || c == 6;
    var record: seq<byte> := ['P' as int, 'K' as int,
      if c == 6 then 6 else if five then 5 else 1, if five then 6 else 2];
    s := [0, 0, 0, c][..k] + record;
    assert s[k] == record[0] && s[k + 1] == record[1] && s[k + 2] == record[2] && s[k + 3] == record[3];
    assert k < 4 ==> s[3] == record[3 - k];
  }

  class Stream {
    const data: seq<byte>
    var pos: nat

    constructor (data: seq<byte>)
      ensures this.data == data && pos == 0
    {
      this.data, pos := data, 0;
    }

    /** At least `min` bytes ahead, and as many more as the reader happens to have. */
    method Ahead(min: nat) returns (ok: bool, n: nat)
      requires pos <= |data|
      ensures ok <==> |data| - pos >= min
      ensures ok ==> min <= n <= |data| - pos
    {
      ok, n := |data| - pos >= min, 0;
      if ok {
        n :| min <= n <= |data| - pos;
      }
    }

    /** A memcmp of four bytes. */
    method MemCmp(at: nat, record: seq<byte>) returns (equal: bool)
      requires at + 4 <= |data| && |record| == 4
      ensures equal <==> data[at] == record[0] && data[at + 1] == record[1] &&
                          data[at + 2] == record[2] && data[at + 3] == record[3]
    {
      var four := data[at..at + 4];
      assert four == [data[at], data[at + 1], data[at + 2], data[at + 3]];
      equal := four == record;
      assert record == [record[0], record[1], record[2], record[3]];
    }

    /** One turn of the inner loop, at position `at` of the stream: stop, or move on by what the table says. */
    method Step(at: nat) returns (found: bool, step: nat)
      requires at + 4 <= |data|
      ensures found <==> Signature(data, at)
      ensures step == if found then 0 else Skip(data[at + 3])
    {
      found := false;
      var c := data[at + 3];
      if c == 'P' as int {
        step := 3;
      } else if c == 'K' as int {
        step := 2;
      } else if c == 1 {
        step := 1;
      } else if c == 2 {
        found := MemCmp(at, PK12);
        step := if found then 0 else 4;
      } else if c == 5 {
        step := 1;
      } else if c == 6 {
        found := MemCmp(at, PK56);
        if !found {
          found := MemCmp(at, PK66);
        }
        step := if found then 0 else 1;
      } else {
        step := 4;
      }
    }

    /** Look through a window of `n` bytes. */
    method ScanWindow(n: nat, ghost start: nat) returns (found: bool, i: nat)
      requires LOOK_AHEAD <= n <= |data| - pos && start <= pos && NoSignature(data, start, pos)
      ensures i < n && NoSignature(data, start, pos + i)
      ensures found ==> Signature(data, pos + i)
      ensures !found ==> i >= n - 4
    {
      found := false;
      i := 0;
      while !found && i < n - 4
        invariant 0 <= i < n
        invariant NoSignature(data, start, pos + i)
        invariant found ==> Signature(data, pos + i)
        decreases n - i, if found then 0 else 1
      {
        var step;
        found, step := Step(pos + i);
        if !found {
          SkipIsSafe(data, pos + i);
        }
        i := i + step;
      }
    }

    /** Move to the first record at or after the present position, and report failure only when none
        is left with enough bytes behind it. */
    method FindRecord() returns (ok: bool)
      requires pos <= |data|
      modifies this`pos
      ensures old(pos) <= pos <= |data|
      ensures NoSignature(data, old(pos), pos)
      ensures ok ==> Signature(data, pos)
      ensures !ok ==> |data| - pos < 20
      ensures !ok ==> forall q {:trigger Signature(data, q)} ::
                old(pos) <= q <= |data| - 20 ==> !Signature(data, q)
    {
      ghost var start := pos;
      var found := false;
      while !found
        invariant start <= pos <= |data|
        invariant NoSignature(data, start, pos)
        invariant found ==> Signature(data, pos)
        decreases |data| - pos, if found then 0 else 1
      {
        var n;
        ok, n := Ahead(LOOK_AHEAD);
        if !ok {
          return false;
        }
        var i;
        found, i := ScanWindow(n, start);
        pos := pos + i;
      }
      ok := true;
    }
  }
}
