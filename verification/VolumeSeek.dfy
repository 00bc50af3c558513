/** Seeking in an archive split over several volumes: global offsets against the concatenation,
    through positions and sizes cached in the volume table. */
module VolumeSeek {
  import opened Bytes

  datatype Whence = SeekSet | SeekCur | SeekEnd | OtherWhence

  /** One volume; a negative position or size is one not known yet. */
  datatype Node = Node(data: seq<byte>, begin: int, total: int)

  /** The bytes of all the volumes in order. */
  ghost function Flat(vols: seq<seq<byte>>): seq<byte> {
    if vols == [] then [] else vols[0] + Flat(vols[1..])
  }

  /** Where volume `i` begins: the sum of the sizes of those before it. */
  ghost function Begin(vols: seq<seq<byte>>, i: nat): nat
    requires i <= |vols|
  {
    if i == 0 then 0 else Begin(vols, i - 1) + |vols[i - 1]|
  }

  ghost function Total(vols: seq<seq<byte>>): nat {
    Begin(vols, |vols|)
  }

  lemma {:induction false} BeginMonotone(vols: seq<seq<byte>>, i: nat, j: nat)
    requires i <= j <= |vols|
    ensures Begin(vols, i) <= Begin(vols, j)
  {
    if i < j {
      BeginMonotone(vols, i, j - 1);
    }
  }

  lemma {:induction false} BeginPrefix(vols: seq<seq<byte>>, other: seq<seq<byte>>, i: nat)
    requires i <= |vols| && i <= |other| && vols[..i] == other[..i]
    ensures Begin(vols, i) == Begin(other, i)
  {
    if i > 0 {
      assert vols[..i - 1] == vols[..i][..i - 1];
      assert other[..i - 1] == other[..i][..i - 1];
      assert vols[i - 1] == vols[..i][i - 1] == other[..i][i - 1];
      BeginPrefix(vols, other, i - 1);
    }
  }

  lemma {:induction false} BeginTail(vols: seq<seq<byte>>, i: nat)
    requires 0 < i <= |vols|
    ensures Begin(vols, i) == |vols[0]| + Begin(vols[1..], i - 1)
  {
    if i > 1 {
      BeginTail(vols, i - 1);
    }
  }

  /** Reading on from local offset `local` of volume `c` is reading on from that global offset. */
  lemma {:induction false} Landing(vols: seq<seq<byte>>, c: nat, local: nat)
    requires c < |vols| && local <= |vols[c]|
    ensures Begin(vols, c) + local <= |Flat(vols)|
    ensures Flat(vols)[Begin(vols, c) + local..] == vols[c][local..] + Flat(vols[c + 1..])
    decreases |vols|
  {
    if c > 0 {
      BeginTail(vols, c);
      Landing(vols[1..], c - 1, local);
      assert vols[1..][c..] == vols[c + 1..];
      var first, rest := vols[0], Flat(vols[1..]);
      assert Flat(vols) == first + rest;
      assert (first + rest)[|first| + (Begin(vols[1..], c - 1) + local)..] == rest[Begin(vols[1..], c - 1) + local..];
    }
  }

  /** The volume SEEK_SET settles on: the first whose last byte lies beyond the target, or the last. */
  ghost predicate Chosen(vols: seq<seq<byte>>, target: int, c: nat) {
    && c < |vols|
    && (c == 0 || Begin(vols, c) - 1 <= target)
    && (Begin(vols, c + 1) - 1 > target || c + 1 == |vols|)
  }

  /** The targets SEEK_SET refuses: those outside the archive, and the last byte before any later volume. */
  ghost predicate Refused(vols: seq<seq<byte>>, target: int) {
    target < 0 || target > Total(vols) || exists i :: 1 <= i < |vols| && Begin(vols, i) == target + 1
  }

  lemma RefusedExactly(vols: seq<seq<byte>>, target: int, c: nat)
    requires Chosen(vols, target, c)
    ensures Refused(vols, target) <==> target < Begin(vols, c) || target - Begin(vols, c) > |vols[c]|
  {
    BeginMonotone(vols, c + 1, |vols|);
    if target < 0 {
      assert target < Begin(vols, c);
    } else if exists i :: 1 <= i < |vols| && Begin(vols, i) == target + 1 {
      var i :| 1 <= i < |vols| && Begin(vols, i) == target + 1;
      if c < i {
        BeginMonotone(vols, c + 1, i);
        assert false;
      }
      BeginMonotone(vols, i, c);
    } else if target < Begin(vols, c) {
      assert false;
    }
  }

  /** Where SEEK_END goes. A target before the start is missed by the size of the first volume. */
  ghost function EndTarget(vols: seq<seq<byte>>, offset: int): int {
    var t := Total(vols) + offset;
    if t >= 0 || vols == [] then t else t + |vols[0]|
  }

  /** Where a volume begins is how many bytes those before it hold. */
  lemma {:induction false} BeginIsLength(vols: seq<seq<byte>>, i: nat)
    requires i <= |vols|
    ensures Begin(vols, i) == |Flat(vols[..i])|
  {
    if i > 0 {
      BeginTail(vols, i);
      BeginIsLength(vols[1..], i - 1);
      assert vols[..i][0] == vols[0] && vols[..i][1..] == vols[1..][..i - 1];
    }
  }

  /** In terms of the bytes alone: SEEK_SET refuses what is before the first byte, behind the last one, or the last
      byte before a later volume. SEEK_END counts from the end, and misses by the first volume what is before the
      start. */
  lemma TargetsInBytes(vols: seq<seq<byte>>, target: int, offset: int)
    ensures Refused(vols, target) <==>
            target < 0 || target > |Flat(vols)| || exists i {:trigger vols[..i]} ::
              1 <= i < |vols| && |Flat(vols[..i])| == target + 1
    ensures var t := |Flat(vols)| + offset;
            EndTarget(vols, offset) == if t < 0 && vols != [] then t + |vols[0]| else t
  {
    BeginIsLength(vols, |vols|);
    assert vols[..|vols|] == vols;
    forall i | 1 <= i < |vols|
      ensures Begin(vols, i) == |Flat(vols[..i])|
    {
      BeginIsLength(vols, i);
    }
    if Refused(vols, target) && 0 <= target <= |Flat(vols)| {
      var i :| 1 <= i < |vols| && Begin(vols, i) == target + 1;
      assert |Flat(vols[..i])| == target + 1;
    }
  }

  /** SEEK_END finds every target at or after the start, and no other unless the first volume is empty. */
  lemma EndTargetExactly(vols: seq<seq<byte>>, offset: int)
    requires vols != []
    ensures EndTarget(vols, offset) == Total(vols) + offset <==> Total(vols) + offset >= 0 || vols[0] == []
  {
  }

  /** Asked for one byte before a two-byte archive, SEEK_END reports success and stands on byte 1. */
  lemma EndBeforeStart()
    ensures EndTarget([[7, 8]], -3) == 1 && Total([[7, 8]]) + -3 == -1
  {
    assert Begin([[7, 8]], 1) == Begin([[7, 8]], 0) + 2;
  }

  /** The last byte of a first volume cannot be reached with SEEK_SET, though it is there. */
  lemma LastByteRefused()
    ensures Refused([[7, 8], [9]], 1) && Total([[7, 8], [9]]) == 3
  {
    var vols: seq<seq<byte>> := [[7, 8], [9]];
    assert Begin(vols, 1) == Begin(vols, 0) + 2;
    assert Begin(vols, 2) == Begin(vols, 1) + 1;
  }

  class Reader {
    var dataset: array<Node>
    var nodes: nat
    // What the volumes hold, in order.
    ghost var vols: seq<seq<byte>>
    var isOpen: bool
    // Where the client stands.
    var cursor: nat
    var filePos: nat
    // The filter at the bottom of the pipeline.
    var closed: bool
    var fatal: bool
    var canSeek: bool
    var avail: nat
    var clientAvail: nat
    var position: int
    var endOfFile: bool
    // The environment: how often the client has been called, and the error numbers (0 for success) of its callbacks,
    // by the number of the call, the volume and the offset. A client may fail at one time and not at another.
    var calls: nat
    const switchError: (nat, nat) -> nat
    const sizeError: (nat, nat) -> nat
    const seekError: (nat, nat, int) -> nat

    /** What is cached is true: positions are prefix sums and sizes are sizes. */
    ghost predicate CacheOk()
      reads this, dataset
      requires dataset.Length == |vols|
    {
      forall i {:trigger dataset[i]} :: 0 <= i < dataset.Length ==>
                    dataset[i].data == vols[i] &&
                    (dataset[i].begin >= 0 ==> dataset[i].begin == Begin(vols, i)) &&
                    (dataset[i].total >= 0 ==> dataset[i].total == |dataset[i].data|)
    }

    ghost predicate Valid()
      reads this, dataset
    {
      && nodes == dataset.Length == |vols|
      && CacheOk()
      && (isOpen ==> nodes > 0 && dataset[0].begin == 0)
    }

    /** Volume `c` and those before it have a position; those before it have a size. */
    ghost predicate Known(c: nat)
      reads this, dataset
    {
      && c < dataset.Length
      && (forall j :: 0 <= j <= c ==> dataset[j].begin >= 0)
      && (forall j :: 0 <= j < c ==> dataset[j].total >= 0)
    }

    /** The client never fails, except that no volume has negative offsets. */
    ghost predicate Healthy() {
      && (forall n, i :: switchError(n, i) == 0) && (forall n, i :: sizeError(n, i) == 0)
      && (forall n, i, off :: off >= 0 ==> seekError(n, i, off) == 0)
    }

    /** The last call of the client has reported this error. */
    ghost predicate ClientFailed(r: int)
      reads this`calls, this`cursor
    {
      && calls > 0 && r < 0
      && (r == 0 - switchError(calls - 1, cursor) || r == 0 - sizeError(calls - 1, cursor) ||
          exists off {:trigger seekError(calls - 1, cursor, off)} :: r == 0 - seekError(calls - 1, cursor, off))
    }

    /** The bytes a read from where the client stands would deliver. */
    ghost function Upcoming(): seq<byte>
      reads this, dataset
      requires cursor < |vols| && filePos <= |vols[cursor]|
    {
      vols[cursor][filePos..] + Flat(vols[cursor + 1..])
    }

    constructor (switchError: (nat, nat) -> nat, sizeError: (nat, nat) -> nat, seekError: (nat, nat, int) -> nat)
      ensures Valid() && nodes == 0 && !isOpen && fresh(dataset)
    {
      dataset := new Node[0];
      vols := [];
      nodes, isOpen, cursor, filePos, calls := 0, false, 0, 0, 0;
      closed, fatal, canSeek, avail, clientAvail, position, endOfFile := false, false, true, 0, 0, 0, false;
      this.switchError, this.sizeError, this.seekError := switchError, sizeError, seekError;
    }

    /** Insert a volume before the archive is open; `memory` is whether realloc succeeds. */
    method AddCallbackData(data: seq<byte>, index: nat, memory: bool) returns (r: int)
      requires Valid()
      modifies this`nodes, this`dataset, this`vols
      ensures r == ARCHIVE_OK <==> !old(isOpen) && index <= old(nodes) && memory
      ensures r == ARCHIVE_OK ==>
                && Valid() && fresh(dataset)
                && vols == old(vols)[..index] + [data] + old(vols)[index..]
      ensures r != ARCHIVE_OK ==> r == ARCHIVE_FATAL && dataset == old(dataset) && vols == old(vols)
      // A failed realloc leaves the table one entry short of the count.
      ensures r != ARCHIVE_OK ==> (Valid() <==> old(isOpen) || index > old(nodes))
    {
      if isOpen || index > nodes {
        return ARCHIVE_FATAL;
      }
      nodes := nodes + 1;
      if !memory {
        return ARCHIVE_FATAL;
      }
      Shift(data, index);
      ghost var before := vols;
      vols := before[..index] + [data] + before[index..];
      forall j | 0 <= j < index
        ensures Begin(vols, j) == Begin(before, j)
      {
        assert vols[..j] == before[..j];
        BeginPrefix(vols, before, j);
      }
      return ARCHIVE_OK;
    }

    /** Make room for a node in the table, by one, and move the later ones up as unknown. */
    method Shift(data: seq<byte>, index: nat)
      requires nodes == dataset.Length + 1 && index < nodes
      modifies this`dataset
      ensures fresh(dataset) && dataset.Length == nodes
      ensures forall j :: 0 <= j < index ==> dataset[j] == old(dataset[j])
      ensures dataset[index] == Node(data, -1, -1)
      ensures forall j :: index < j < nodes ==> dataset[j] == Node(old(dataset[j - 1]).data, -1, -1)
    {
      ghost var was := dataset[..];
      var p := new Node[nodes](_ => Node([], -1, -1));
      forall i | 0 <= i < dataset.Length {
        p[i] := dataset[i];
      }
      dataset := p;
      var i := nodes - 1;
      while i > index && i > 0
        invariant index <= i < nodes == dataset.Length == |was| + 1
        invariant fresh(dataset)
        invariant forall j :: 0 <= j <= i && j < |was| ==> dataset[j] == was[j]
        invariant forall j :: i < j < nodes ==> dataset[j] == Node(was[j - 1].data, -1, -1)
      {
        dataset[i] := Node(dataset[i - 1].data, -1, -1);
        i := i - 1;
      }
      dataset[index] := Node(data, -1, -1);
    }

    /** The part of opening that seeking depends on. */
    method Open()
      requires Valid() && nodes > 0
      modifies this`isOpen, dataset
      ensures Valid() && isOpen
    {
      dataset[0] := dataset[0].(begin := 0);
      isOpen := true;
    }

    /** Make a volume the current one; where in it the client then stands does not matter to a seek. */
    method SwitchProxy(i: nat) returns (r: int)
      requires i < dataset.Length
      modifies this`cursor, this`filePos, this`calls
      ensures cursor == i && calls == old(calls) + 1 && r == 0 - switchError(old(calls), i)
    {
      r := 0 - switchError(calls, i);
      cursor, filePos, calls := i, *, calls + 1;
    }

    /** The size of the current volume, as a seek to its end reports it. */
    method SizeProxy() returns (r: int)
      requires cursor < dataset.Length
      modifies this`filePos, this`calls
      ensures calls == old(calls) + 1 && filePos == |dataset[cursor].data|
      ensures var e: int := sizeError(old(calls), cursor); r == if e > 0 then 0 - e else |dataset[cursor].data|
    {
      var e: int := sizeError(calls, cursor);
      filePos, calls := |dataset[cursor].data|, calls + 1;
      r := if e > 0 then 0 - e else |dataset[cursor].data|;
    }

    method SeekProxy(off: int) returns (r: int)
      modifies this`filePos, this`calls
      ensures var e: int := seekError(old(calls), cursor, off);
              r == if e > 0 then 0 - e else if off >= 0 then off else ARCHIVE_FATAL
      ensures calls == old(calls) + 1
      ensures if r >= 0 then filePos == off else filePos == old(filePos)
    {
      var e: int := seekError(calls, cursor, off);
      calls := calls + 1;
      if e > 0 {
        return 0 - e;
      }
      if off < 0 {
        return ARCHIVE_FATAL;
      }
      filePos := off;
      return off;
    }

    /** Record a position or a size; what is true stays true. */
    method Remember(i: nat, begin: int, total: int)
      requires Valid() && i < nodes
      requires begin == dataset[i].begin || begin == Begin(vols, i)
      requires total == dataset[i].total || total == |dataset[i].data|
      requires i == 0 && isOpen ==> begin == 0
      modifies dataset
      ensures Valid()
      ensures dataset[i] == Node(old(dataset[i].data), begin, total)
      ensures forall j :: 0 <= j < nodes && j != i ==> dataset[j] == old(dataset[j])
    {
      dataset[i] := Node(dataset[i].data, begin, total);
    }

    /** The volume after a known one begins where that one ends. */
    method PassOn(c: nat)
      requires Valid() && c + 1 < nodes && dataset[c].begin >= 0 && dataset[c].total >= 0
      modifies dataset
      ensures Valid() && dataset[c + 1] == old(dataset[c + 1]).(begin := Begin(vols, c + 1))
      ensures forall j :: 0 <= j < nodes && j != c + 1 ==> dataset[j] == old(dataset[j])
    {
      var r := dataset[c].begin + dataset[c].total;
      Remember(c + 1, r, dataset[c + 1].total);
    }

    /** Follow cached sizes towards the volume of `offset`; with no `offset`, as far as they go. */
    method WalkCache(bounded: bool, offset: int) returns (c: nat)
      requires Valid() && isOpen
      modifies dataset
      ensures Valid() && c < nodes
      ensures Known(c)
      ensures bounded ==> c == 0 || Begin(vols, c) - 1 <= offset
    {
      c := 0;
      while true
        invariant Valid() && c < nodes
        invariant Known(c)
        invariant bounded ==> c == 0 || Begin(vols, c) - 1 <= offset
        decreases nodes - c
      {
        if dataset[c].begin < 0 || dataset[c].total < 0 ||
           (bounded && dataset[c].begin + dataset[c].total - 1 > offset) || c + 1 >= nodes {
          return;
        }
        PassOn(c);
        c := c + 1;
      }
    }

    /** Switch to a volume and learn its size. */
    method Probe(c: nat) returns (r: int)
      requires Valid() && c < nodes
      modifies dataset, this`cursor, this`filePos, this`calls
      ensures Valid() && cursor == c
      ensures r >= 0 ==> filePos == |vols[c]| && dataset[c] == old(dataset[c]).(total := |vols[c]|)
      ensures r < 0 ==> dataset[c] == old(dataset[c]) && ClientFailed(r)
      ensures forall j :: 0 <= j < nodes && j != c ==> dataset[j] == old(dataset[j])
      ensures Healthy() ==> r >= 0
    {
      r := SwitchProxy(c);
      if r != ARCHIVE_OK {
        return;
      }
      r := SizeProxy();
      if r < 0 {
        return;
      }
      Remember(c, dataset[c].begin, r);
    }

    /** Go to a local offset of the current volume; the answer is a global one. */
    method Land(local: int) returns (r: int)
      requires Valid() && cursor < nodes && dataset[cursor].begin >= 0
      modifies this`filePos, this`calls
      ensures r >= 0 ==> r == Begin(vols, cursor) + local && 0 <= local == filePos
      ensures r >= 0 && local <= |vols[cursor]| ==> r <= |Flat(vols)| && Upcoming() == Flat(vols)[r..]
      ensures Healthy() ==> (r >= 0 <==> local >= 0)
      ensures r < 0 ==> filePos == old(filePos) && (r == ARCHIVE_FATAL || ClientFailed(r))
    {
      r := SeekProxy(local);
      if r >= 0 {
        if local <= |vols[cursor]| {
          Landing(vols, cursor, local);
        }
        r := r + dataset[cursor].begin;
      }
    }

    /** One volume of the walk: learn its size, and stop there or tell the next where it begins. */
    method VisitVolume(c: nat, bounded: bool, offset: int) returns (r: int, arrived: bool)
      requires Valid() && Known(c)
      modifies dataset, this`cursor, this`filePos, this`calls
      ensures Valid() && cursor == c
      ensures r >= 0 ==> Known(c) && dataset[c].total >= 0 && filePos == |vols[c]|
      ensures r >= 0 && arrived ==> c + 1 == nodes || (bounded && Begin(vols, c + 1) - 1 > offset)
      ensures !arrived ==> r >= 0 && c + 1 < nodes && Known(c + 1)
      ensures !arrived && bounded ==> Begin(vols, c + 1) - 1 <= offset
      ensures r < 0 ==> ClientFailed(r)
      ensures Healthy() ==> r >= 0
    {
      r := Probe(c);
      if r < 0 {
        return r, true;
      }
      if (bounded && dataset[c].begin + dataset[c].total - 1 > offset) || c + 1 >= nodes {
        return r, true;
      }
      PassOn(c);
      arrived := false;
    }

    /** Ask volume after volume for its size, from `start` on; `bounded` as above. */
    method WalkVolumes(start: nat, bounded: bool, offset: int) returns (r: int, c: nat)
      requires Valid() && isOpen && start < nodes
      requires Known(start)
      requires bounded ==> start == 0 || Begin(vols, start) - 1 <= offset
      modifies dataset, this`cursor, this`filePos, this`calls
      ensures Valid()
      ensures r >= 0 ==>
                && c == cursor < nodes && filePos == |vols[c]|
                && Known(c) && dataset[c].total >= 0
                && (if bounded then Chosen(vols, offset, c) else c + 1 == nodes)
      ensures r < 0 ==> ClientFailed(r)
      ensures Healthy() ==> r >= 0
    {
      c := start;
      while true
        invariant Valid() && c < nodes
        invariant Known(c)
        invariant bounded ==> c == 0 || Begin(vols, c) - 1 <= offset
        decreases nodes - c
      {
        var arrived;
        r, arrived := VisitVolume(c, bounded, offset);
        if arrived {
          return;
        }
        c := c + 1;
      }
    }

    method SeekToSet(target: int) returns (r: int)
      requires Valid() && isOpen
      modifies dataset, this`cursor, this`filePos, this`calls
      ensures Valid()
      ensures r >= 0 ==>
                && r == target && !Refused(vols, target)
                && cursor < nodes && filePos <= |vols[cursor]|
                && target <= |Flat(vols)| && Upcoming() == Flat(vols)[target..]
      ensures Healthy() && r < 0 ==> Refused(vols, target)
      ensures r < 0 ==> r == ARCHIVE_FATAL || ClientFailed(r)
      // A refused seek leaves the client at the end of the volume it settled on.
      ensures Healthy() && r < 0 ==> Chosen(vols, target, cursor) && filePos == |vols[cursor]|
    {
      var c := WalkCache(true, target);
      r, c := WalkVolumes(c, true, target);
      if r < 0 {
        return;
      }
      RefusedExactly(vols, target, c);
      var local := target - dataset[c].begin;
      if local < 0 || local > dataset[c].total {
        return ARCHIVE_FATAL;
      }
      r := Land(local);
    }

    /** Walk back from the last volume to the one that holds the target. */
    method WalkBack(offset: int) returns (local: int, c: nat)
      requires Valid() && isOpen
      requires Known(nodes - 1) && dataset[nodes - 1].total >= 0
      ensures c < nodes
      ensures local + Begin(vols, c) == EndTarget(vols, offset)
      ensures Total(vols) + offset >= 0 ==> local >= 0 && (c + 1 == nodes || local < |vols[c]|)
      ensures Total(vols) + offset < 0 ==> c == 0
    {
      ghost var t := Total(vols) + offset;
      assert Begin(vols, nodes) == Begin(vols, nodes - 1) + |vols[nodes - 1]|;
      var off := offset;
      c := nodes - 1;
      var r := dataset[c].begin + dataset[c].total;
      while true
        invariant c < nodes && r == Begin(vols, c + 1) && r + off == t
        invariant c + 1 == nodes || t < Begin(vols, c + 1)
        decreases c
      {
        if r + off >= dataset[c].begin {
          break;
        }
        off := off + dataset[c].total;
        if c == 0 {
          break;
        }
        c := c - 1;
        r := dataset[c].begin + dataset[c].total;
      }
      local := (r + off) - dataset[c].begin;
    }

    method SeekToEnd(offset: int) returns (r: int)
      requires Valid() && isOpen
      modifies dataset, this`cursor, this`filePos, this`calls
      ensures Valid()
      ensures r >= 0 ==>
                && cursor < nodes && r == EndTarget(vols, offset)
                && (r <= Total(vols) ==>
                      && filePos <= |vols[cursor]| && r <= |Flat(vols)|
                      && Upcoming() == Flat(vols)[r..])
      ensures Healthy() && r < 0 ==> EndTarget(vols, offset) < 0
      ensures r < 0 ==> r == ARCHIVE_FATAL || ClientFailed(r)
      // And here the client is left in the first volume.
      ensures Healthy() && r < 0 ==> cursor == 0
    {
      hide Flat, Begin, Chosen;
      var c := WalkCache(false, 0);
      r, c := WalkVolumes(c, false, 0);
      if r < 0 {
        return;
      }
      var local;
      local, c := WalkBack(offset);
      r := SwitchProxy(c);
      if r != ARCHIVE_OK {
        return;
      }
      r := Land(local);
      if 0 <= r <= Total(vols) {
        EndLocal(vols, offset, c, local);
      }
    }

    /** Where a refused seek leaves a client that does not fail: at the end of the volume that SEEK_SET settles on, or
        in the first volume after SEEK_END. */
    ghost predicate LeftAt(offset: int, whence: Whence, from: int, oldCursor: nat, oldFilePos: nat)
      reads this`cursor, this`filePos, this`vols
    {
      match whence
      case SeekEnd => cursor == 0
      case OtherWhence => cursor == oldCursor && filePos == oldFilePos
      case SeekSet => Chosen(vols, offset, cursor) && filePos == |vols[cursor]|
      case SeekCur => Chosen(vols, from + offset, cursor) && filePos == |vols[cursor]|
    }

    /** Move to a global offset and forget what was buffered. */
    method Seek(offset: int, whence: Whence) returns (r: int)
      requires Valid() && isOpen
      modifies dataset, this`cursor, this`filePos, this`calls, this`avail, this`clientAvail,
               this`position, this`endOfFile
      ensures Valid()
      // Success: the reader stands where it says, on the bytes that follow there.
      ensures r >= 0 ==> position == r && avail == 0 && clientAvail == 0 && !endOfFile
      ensures r >= 0 && r <= Total(vols) ==>
                && cursor < nodes && filePos <= |vols[cursor]| && r <= |Flat(vols)|
                && Upcoming() == Flat(vols)[r..]
      ensures r >= 0 ==>
                match whence
                case SeekSet => r == offset <= |Flat(vols)|
                case SeekCur => r == old(position) + offset <= |Flat(vols)|
                case SeekEnd => r == EndTarget(vols, offset)
                case OtherWhence => false
      // Failure: the filter keeps its buffers and its position.
      ensures r < 0 ==> position == old(position) && avail == old(avail) && clientAvail == old(clientAvail)
                        && endOfFile == old(endOfFile)
      ensures closed || fatal || (whence.OtherWhence? && canSeek) ==> r == ARCHIVE_FATAL
      ensures !closed && !fatal && !canSeek ==> r == ARCHIVE_FAILED
      ensures !closed && !fatal && canSeek && r < 0 ==> r == ARCHIVE_FATAL || ClientFailed(r)
      // The client is left where the walk has brought it.
      ensures Healthy() && !closed && !fatal && canSeek && r < 0 ==>
                LeftAt(offset, whence, old(position), old(cursor), old(filePos))
      ensures closed || fatal || !canSeek ==> cursor == old(cursor) && filePos == old(filePos)
      // Nothing but the listed targets fails on a client that does not.
      ensures Healthy() && !closed && !fatal && canSeek ==>
                match whence
                case SeekSet => r < 0 <==> Refused(vols, offset)
                case SeekCur => r < 0 <==> Refused(vols, old(position) + offset)
                case SeekEnd => r < 0 <==> EndTarget(vols, offset) < 0
                case OtherWhence => true
    {
      hide Flat, Begin, Refused, Chosen, EndTarget;
      if closed || fatal {
        return ARCHIVE_FATAL;
      }
      if !canSeek {
        return ARCHIVE_FAILED;
      }
      match whence {
        case SeekCur => r := SeekToSet(offset + position);
        case SeekSet => r := SeekToSet(offset);
        case SeekEnd => r := SeekToEnd(offset);
        case OtherWhence => return ARCHIVE_FATAL;
      }
      if r >= 0 {
        avail, clientAvail := 0, 0;
        position := r;
        endOfFile := false;
      }
    }
  }

  lemma EndLocal(vols: seq<seq<byte>>, offset: int, c: nat, local: int)
    requires c < |vols| && local >= 0
    requires local + Begin(vols, c) == EndTarget(vols, offset) <= Total(vols)
    requires Total(vols) + offset >= 0 ==> c + 1 == |vols| || local < |vols[c]|
    requires Total(vols) + offset < 0 ==> c == 0
    ensures local <= |vols[c]|
  {
  }

  /** The client is ahead of the same bytes at two places exactly when they are the same global offset. So what a
      refused seek leaves unread is what was unread before it only if the client stood there already. */
  lemma SameBytesAheadExactly(vols: seq<seq<byte>>, c: nat, local: nat, c': nat, local': nat)
    requires c < |vols| && local <= |vols[c]| && c' < |vols| && local' <= |vols[c']|
    ensures vols[c][local..] + Flat(vols[c + 1..]) == vols[c'][local'..] + Flat(vols[c' + 1..]) <==>
            Begin(vols, c) + local == Begin(vols, c') + local'
  {
    Landing(vols, c, local);
    Landing(vols, c', local');
    var all, p, p' := Flat(vols), Begin(vols, c) + local, Begin(vols, c') + local';
    assert |all[p..]| == |all| - p && |all[p'..]| == |all| - p';
  }

  /** After the last byte of the first of two volumes has been refused to a reader at the start, the client is at the
      end of the second: nothing is left to be read. */
  lemma RefusedSeekMovesClient(cursor: nat)
    requires Chosen([[7, 8], [9]], 1, cursor)
    ensures cursor == 1
  {
    var vols: seq<seq<byte>> := [[7, 8], [9]];
    assert Begin(vols, 1) == Begin(vols, 0) + 2;
    assert Begin(vols, 2) == Begin(vols, 1) + 1;
  }
}
