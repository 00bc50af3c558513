/** Reading an entry's data as contiguous bytes out of sparse blocks. */
module SparseRead {
  import opened Bytes

  type ErrorCode = x: int | x < 0 witness -1

  /** What the format reader hands out, call after call; the end of the list is the end of the entry. */
  datatype Event = Block(offset: nat, data: seq<byte>) | Failure(code: ErrorCode)

  /** The outcome of one read: a count of bytes or an error code; the bytes copied, and what is still to come from
      which position. The caller of a read that fails is not told how many bytes were copied before. */
  datatype Answer = Got(bytes: seq<byte>, out: nat, rest: seq<Event>)
                  | Stopped(code: ErrorCode, bytes: seq<byte>, out: nat, rest: seq<Event>)
  {
    /** The same outcome with `before` copied first. */
    ghost function After(before: seq<byte>): (a: Answer)
      ensures a.Got? == Got? && a.bytes == before + bytes && a.out == out && a.rest == rest
      ensures Stopped? ==> a.code == code
    {
      match this
      case Got(b, o, r) => Got(before + b, o, r)
      case Stopped(c, b, o, r) => Stopped(c, before + b, o, r)
    }
  }

  /** Blocks in order, none overlapping, from position `out` on. */
  ghost predicate Ordered(out: nat, blocks: seq<Event>)
    decreases |blocks|
  {
    blocks == [] ||
    (blocks[0].Block? && out <= blocks[0].offset && Ordered(blocks[0].offset + |blocks[0].data|, blocks[1..]))
  }

  /** The contents from position `out` on: the blocks, with zeros for the holes between them. */
  ghost function Flat(out: nat, blocks: seq<Event>): seq<byte>
    requires Ordered(out, blocks)
    decreases |blocks|, 1
  {
    if blocks == [] then []
    else Zeros(blocks[0].offset - out) + Behind(blocks)
  }

  /** The contents from the first block on. */
  ghost function Behind(blocks: seq<Event>): seq<byte>
    requires blocks != [] && Ordered(0, blocks)
    decreases |blocks|, 0
  {
    blocks[0].data + Flat(blocks[0].offset + |blocks[0].data|, blocks[1..])
  }

  ghost predicate HasData(blocks: seq<Event>) {
    blocks != [] && ((blocks[0].Block? && blocks[0].data != []) || HasData(blocks[1..]))
  }

  /** Wherever only empty blocks are left, they end no more bytes ahead than there are blocks. */
  ghost predicate Steady(out: nat, blocks: seq<Event>)
    requires Ordered(out, blocks)
    decreases |blocks|
  {
    blocks == [] ||
    (Steady(blocks[0].offset + |blocks[0].data|, blocks[1..]) &&
     (HasData(blocks) || |Flat(out, blocks)| <= |blocks|))
  }

  /** One call that asks for `s` bytes. */
  ghost function Call(out: nat, blocks: seq<Event>, s: nat): Answer
    decreases |blocks|
  {
    if s == 0 || blocks == [] then Got([], out, blocks)
    else match blocks[0]
         case Failure(code) => Stopped(code, [], out, blocks[1..])
         case Block(offset, data) =>
           // An out-of-order block is kept, unless it is empty.
           if offset < out then Stopped(ARCHIVE_RETRY, [], out, if data == [] then blocks[1..] else blocks)
           else if s <= offset - out then
             // An empty block is forgotten once looked at, whether or not its hole was filled.
             Got(Zeros(s), out + s, if data == [] then blocks[1..] else blocks)
           else if s - (offset - out) < |data| then
             var n := s - (offset - out);
             Got(Zeros(offset - out) + data[..n], offset + n, [Block(offset + n, data[n..])] + blocks[1..])
           else
             Call(offset + |data|, blocks[1..], s - (offset - out) - |data|).After(data).After(Zeros(offset - out))
  }

  /** A run of calls. */
  ghost function Calls(out: nat, blocks: seq<Event>, sizes: seq<nat>): Answer
    decreases |sizes|
  {
    if sizes == [] then Got([], out, blocks)
    else match Call(out, blocks, sizes[0])
         case Stopped(code, bytes, out', rest) => Stopped(code, bytes, out', rest)
         case Got(bytes, out', rest) => Calls(out', rest, sizes[1..]).After(bytes)
  }

  ghost function Sum(sizes: seq<nat>): nat {
    if sizes == [] then 0 else sizes[0] + Sum(sizes[1..])
  }

  /** The run returns the contents, as far as it asks. */
  ghost predicate Exact(out: nat, blocks: seq<Event>, sizes: seq<nat>)
    requires Ordered(out, blocks)
  {
    var all, a := Flat(out, blocks), Calls(out, blocks, sizes);
    a.Got? && a.bytes <= all && |a.bytes| == Min(Sum(sizes), |all|)
  }

  lemma FlatEarlier(out: nat, out': nat, blocks: seq<Event>)
    requires Ordered(out, blocks) && out' <= out && blocks != []
    ensures Ordered(out', blocks) && Flat(out', blocks) == Zeros(out - out') + Flat(out, blocks)
  {
    var offset := blocks[0].offset;
    ZerosJoin(out - out', offset - out);
    Concat3(Zeros(out - out'), Zeros(offset - out), Behind(blocks));
  }

  /** The call returns the next bytes of the contents, as many as it asks for or as there are, and
      leaves the others, in a steady list. */
  ghost predicate CallExact(out: nat, blocks: seq<Event>, s: nat)
    requires Ordered(out, blocks)
  {
    var all, a := Flat(out, blocks), Call(out, blocks, s);
    && a.Got? && |a.bytes| == Min(s, |all|)
    && Ordered(a.out, a.rest) && Steady(a.out, a.rest)
    && a.bytes + Flat(a.out, a.rest) == all
  }

  /** What a call does with the first block. */
  lemma FirstBlock(out: nat, blocks: seq<Event>, s: nat)
    requires blocks != [] && blocks[0].Block? && out <= blocks[0].offset
    ensures var offset, data, rest := blocks[0].offset, blocks[0].data, blocks[1..];
            Call(out, blocks, s) ==
            if s == 0 then Got([], out, blocks)
            else if s <= offset - out then Got(Zeros(s), out + s, if data == [] then rest else blocks)
            else if s - (offset - out) < |data| then
              var n := s - (offset - out);
              Got(Zeros(offset - out) + data[..n], offset + n, [Block(offset + n, data[n..])] + rest)
            else Call(offset + |data|, rest, s - (offset - out) - |data|).After(data).After(Zeros(offset - out))
  {
  }

  /** The contents, byte by byte: at each position the byte of the block that covers it, or else a zero; and they end
      where the last block ends. */
  lemma {:induction false} FlatByte(out: nat, blocks: seq<Event>, p: nat)
    requires Ordered(out, blocks) && out <= p < out + |Flat(out, blocks)|
    ensures forall i :: 0 <= i < |blocks| && Covers(blocks[i], p) ==>
              Flat(out, blocks)[p - out] == blocks[i].data[p - blocks[i].offset]
    ensures (forall i :: 0 <= i < |blocks| ==> !Covers(blocks[i], p)) ==> Flat(out, blocks)[p - out] == 0
    decreases |blocks|
  {
    var offset, data, rest := blocks[0].offset, blocks[0].data, blocks[1..];
    var end := offset + |data|;
    FlatStep(out, blocks);
    LaterBlocks(end, rest);
    if p >= end {
      FlatByte(end, rest, p);
      assert Flat(out, blocks)[p - out] == Flat(end, rest)[p - end];
    } else if p >= offset {
      assert Covers(blocks[0], p) && Flat(out, blocks)[p - out] == data[p - offset];
    }
    forall i | 0 <= i < |blocks| && Covers(blocks[i], p)
      ensures Flat(out, blocks)[p - out] == blocks[i].data[p - blocks[i].offset]
    {
      if i > 0 {
        assert blocks[i] == rest[i - 1];
      }
    }
    if forall i :: 0 <= i < |blocks| ==> !Covers(blocks[i], p) {
      assert !Covers(blocks[0], p);
      assert forall i :: 0 <= i < |rest| ==> rest[i] == blocks[i + 1];
    }
  }

  predicate Covers(b: Event, p: nat) {
    b.Block? && b.offset <= p < b.offset + |b.data|
  }

  lemma {:induction false} LaterBlocks(out: nat, blocks: seq<Event>)
    requires Ordered(out, blocks)
    ensures forall i :: 0 <= i < |blocks| ==> blocks[i].Block? && blocks[i].offset >= out
    ensures |Flat(out, blocks)| ==
            if blocks == [] then 0 else blocks[|blocks| - 1].offset + |blocks[|blocks| - 1].data| - out
    decreases |blocks|
  {
    if blocks != [] {
      hide Flat, Zeros;
      FlatStep(out, blocks);
      var rest := blocks[1..];
      LaterBlocks(blocks[0].offset + |blocks[0].data|, rest);
      assert forall i :: 1 <= i < |blocks| ==> blocks[i] == rest[i - 1];
    }
  }

  lemma FlatStep(out: nat, blocks: seq<Event>)
    requires Ordered(out, blocks) && blocks != []
    ensures Flat(out, blocks) ==
            Zeros(blocks[0].offset - out) + (blocks[0].data + Flat(blocks[0].offset + |blocks[0].data|, blocks[1..]))
  {
  }

  lemma CallInHole(out: nat, blocks: seq<Event>, s: nat)
    requires Ordered(out, blocks) && Steady(out, blocks)
    requires blocks != [] && 0 < s <= blocks[0].offset - out
    ensures CallExact(out, blocks, s)
  {
    hide Call, Flat;
    FirstBlock(out, blocks, s);
    SplitAtHole(out, out + s, blocks);
    if blocks[0].data == [] {
      EmptyBlockForgotten(out, out + s, blocks);
    } else {
      assert HasData(blocks);
    }
  }

  lemma SplitAtHole(out: nat, now: nat, blocks: seq<Event>)
    requires Ordered(out, blocks) && blocks != [] && out <= now <= blocks[0].offset
    ensures Ordered(now, blocks) && Zeros(now - out) + Flat(now, blocks) == Flat(out, blocks)
    ensures now - out <= |Flat(out, blocks)|
  {
    FlatEarlier(now, out, blocks);
  }

  /** Forgetting an empty block at position `now`, inside or at the end of its hole. */
  lemma EmptyBlockForgotten(out: nat, now: nat, blocks: seq<Event>)
    requires Ordered(out, blocks) && Steady(out, blocks)
    requires blocks != [] && blocks[0].data == [] && out < now <= blocks[0].offset
    ensures Ordered(now, blocks[1..]) && Steady(now, blocks[1..]) && Flat(now, blocks[1..]) == Flat(now, blocks)
  {
    var offset, rest := blocks[0].offset, blocks[1..];
    SplitAtHole(out, now, blocks);
    FlatStep(now, blocks);
    assert [] + Flat(offset, rest) == Flat(offset, rest);
    if rest != [] {
      RestIsSteady(out, now, blocks);
    } else {
      assert !HasData(rest) && !HasData(blocks);
      assert |Flat(out, blocks)| <= 1 && |Flat(out, blocks)| >= offset - out;
      assert now == offset;
    }
  }

  lemma RestIsSteady(out: nat, now: nat, blocks: seq<Event>)
    requires Ordered(out, blocks) && Steady(out, blocks) && |blocks| > 1
    requires blocks[0].data == [] && out < now <= blocks[0].offset
    ensures var offset, rest := blocks[0].offset, blocks[1..];
            && Ordered(now, rest) && Steady(now, rest) && Flat(now, rest) == Zeros(offset - now) + Flat(offset, rest)
  {
    hide Flat;
    var offset, rest := blocks[0].offset, blocks[1..];
    SplitAtHole(out, now, blocks);
    FlatStep(now, blocks);
    FlatEarlier(offset, now, rest);
    assert [] + Flat(offset, rest) == Flat(offset, rest);
    assert HasData(blocks) == HasData(rest);
  }

  lemma CutIsSteady(out: nat, blocks: seq<Event>, n: nat)
    requires Ordered(out, blocks) && Steady(out, blocks) && blocks != [] && n < |blocks[0].data|
    ensures var offset, data, rest := blocks[0].offset, blocks[0].data, blocks[1..];
            var left := [Block(offset + n, data[n..])] + rest;
            blocks[0].Block? && out <= offset && Ordered(offset + |data|, rest)
            && Ordered(offset + n, left) && Steady(offset + n, left)
  {
    hide Flat;
    var left := [Block(blocks[0].offset + n, blocks[0].data[n..])] + blocks[1..];
    assert left[0].data != [] && left[1..] == blocks[1..];
  }

  lemma CallInData(out: nat, blocks: seq<Event>, s: nat)
    requires Ordered(out, blocks) && Steady(out, blocks)
    requires blocks != [] && 0 < s - (blocks[0].offset - out) < |blocks[0].data|
    ensures CallExact(out, blocks, s)
  {
    hide Call, Flat, Steady, Zeros;
    var offset, data, rest := blocks[0].offset, blocks[0].data, blocks[1..];
    var n := s - (offset - out);
    var left := [Block(offset + n, data[n..])] + rest;
    CutIsSteady(out, blocks, n);
    assert left[1..] == rest;
    FirstBlock(out, blocks, s);
    FlatStep(out, blocks);
    FlatStep(offset + n, left);
    var hole, behind := Zeros(offset - out), Flat(offset + |data|, rest);
    assert Zeros(0) + (data[n..] + behind) == data[n..] + behind;
    assert data == data[..n] + data[n..];
    Concat3(data[..n], data[n..], behind);
    Concat3(hole, data[..n], data[n..] + behind);
  }

  lemma CallPastBlock(out: nat, blocks: seq<Event>, s: nat)
    requires Ordered(out, blocks) && blocks != []
    requires var end := blocks[0].offset + |blocks[0].data|;
             s >= end - out && s > blocks[0].offset - out && CallExact(end, blocks[1..], s - (end - out))
    ensures CallExact(out, blocks, s)
  {
    var offset, data, rest := blocks[0].offset, blocks[0].data, blocks[1..];
    assert blocks[0].Block? && out <= offset;
    hide Call, Flat, Steady, Ordered, Zeros;
    var end, hole := offset + |data|, Zeros(offset - out);
    var a := Call(end, rest, s - (end - out));
    FirstBlock(out, blocks, s);
    FlatStep(out, blocks);
    Behind4(hole, data, a.bytes, Flat(a.out, a.rest));
  }

  lemma Behind4(a: seq<byte>, b: seq<byte>, c: seq<byte>, d: seq<byte>)
    ensures (a + (b + c)) + d == a + (b + (c + d)) && |a + (b + c)| == |a| + |b| + |c|
  {
  }

  /** A call on a steady list is exact. */
  lemma {:induction false} CallIsExact(out: nat, blocks: seq<Event>, s: nat)
    requires Ordered(out, blocks) && Steady(out, blocks)
    ensures CallExact(out, blocks, s)
    decreases |blocks|
  {
    if s > 0 && blocks != [] {
      var offset, data, rest := blocks[0].offset, blocks[0].data, blocks[1..];
      if s <= offset - out {
        CallInHole(out, blocks, s);
      } else if s - (offset - out) < |data| {
        CallInData(out, blocks, s);
      } else {
        var s' := s - (offset - out) - |data|;
        CallIsExact(offset + |data|, rest, s');
        CallPastBlock(out, blocks, s);
      }
    }
  }

  lemma {:induction false} CallsAreExact(out: nat, blocks: seq<Event>, sizes: seq<nat>)
    requires Ordered(out, blocks) && Steady(out, blocks)
    ensures Exact(out, blocks, sizes)
    decreases |sizes|
  {
    if sizes != [] {
      CallIsExact(out, blocks, sizes[0]);
      var a := Call(out, blocks, sizes[0]);
      CallsAreExact(a.out, a.rest, sizes[1..]);
      var more := Calls(a.out, a.rest, sizes[1..]).bytes;
      PrefixBehind(a.bytes, more, Flat(a.out, a.rest));
    }
  }

  lemma PrefixBehind(front: seq<byte>, part: seq<byte>, whole: seq<byte>)
    ensures part <= whole <==> front + part <= front + whole
  {
    if front + part <= front + whole {
      forall i | 0 <= i < |part|
        ensures part[i] == whole[i]
      {
        assert (front + part)[|front| + i] == (front + whole)[|front| + i];
      }
    }
  }

  /** Byte by byte, a list of empty blocks yields at most one byte a block. */
  lemma {:induction false} OneByteEach(out: nat, blocks: seq<Event>)
    requires Ordered(out, blocks) && !HasData(blocks)
    ensures var a := Call(out, blocks, 1);
            && a.Got? && Ordered(a.out, a.rest) && !HasData(a.rest)
            && |a.bytes| <= 1 && |a.bytes| + |a.rest| <= |blocks|
    decreases |blocks|
  {
    if blocks != [] {
      assert blocks[0].data == [];
      if blocks[0].offset == out {
        OneByteEach(out, blocks[1..]);
      } else if blocks[1..] != [] {
        FlatEarlier(blocks[0].offset, out + 1, blocks[1..]);
      }
    }
  }

  lemma {:induction false} ByteByByte(out: nat, blocks: seq<Event>, n: nat)
    requires Ordered(out, blocks) && !HasData(blocks)
    ensures var a := Calls(out, blocks, seq(n, _ => 1));
            a.Got? && |a.bytes| <= |blocks|
    ensures Sum(seq(n, _ => 1)) == n
    decreases n
  {
    if n > 0 {
      OneByteEach(out, blocks);
      var a := Call(out, blocks, 1);
      assert seq(n, _ => 1)[1..] == seq(n - 1, _ => 1);
      ByteByByte(a.out, a.rest, n - 1);
    }
  }

  /** A list that is not steady loses bytes to some run of reads. */
  lemma {:induction false} UnsteadyLoses(out: nat, blocks: seq<Event>) returns (sizes: seq<nat>)
    requires Ordered(out, blocks) && !Steady(out, blocks)
    ensures sizes != [] && sizes[0] > 0 && !Exact(out, blocks, sizes)
    decreases |blocks|
  {
    var all := Flat(out, blocks);
    if !HasData(blocks) && |all| > |blocks| {
      sizes := seq(|all|, _ => 1);
      ByteByByte(out, blocks, |all|);
    } else {
      var offset, data, rest := blocks[0].offset, blocks[0].data, blocks[1..];
      var more := UnsteadyLoses(offset + |data|, rest);
      var first := offset - out + |data|;
      if first == 0 {
        sizes := more;
        NothingBlock(out, blocks, more);
      } else {
        sizes := [first] + more;
        LossStays(out, blocks, first, more);
      }
    }
  }

  lemma AfterNothing(a: Answer)
    ensures a.After([]) == a
  {
  }

  /** A block that adds nothing changes nothing. */
  lemma NothingBlock(out: nat, blocks: seq<Event>, more: seq<nat>)
    requires Ordered(out, blocks) && blocks != [] && blocks[0].offset == out && blocks[0].data == []
    requires more != [] && more[0] > 0
    ensures Flat(out, blocks) == Flat(out, blocks[1..]) && Calls(out, blocks, more) == Calls(out, blocks[1..], more)
  {
    var a := Call(out, blocks[1..], more[0]);
    AfterNothing(a);
    assert blocks[0].data == [] == Zeros(0);
    assert Call(out, blocks, more[0]) == a.After([]).After([]);
  }

  lemma LossStays(out: nat, blocks: seq<Event>, first: nat, more: seq<nat>)
    requires Ordered(out, blocks) && blocks != [] && first == blocks[0].offset - out + |blocks[0].data| > 0
    requires !Exact(blocks[0].offset + |blocks[0].data|, blocks[1..], more)
    ensures !Exact(out, blocks, [first] + more)
  {
    var hole, data, rest := Zeros(blocks[0].offset - out), blocks[0].data, blocks[1..];
    var end, front := blocks[0].offset + |data|, hole + data;
    assert data + [] == data && hole + [] == hole;
    assert Call(out, blocks, first) == Got(front, end, rest);
    Concat3(hole, data, Flat(end, rest));
    assert ([first] + more)[1..] == more;
    var a := Calls(end, rest, more);
    assert Calls(out, blocks, [first] + more) == a.After(front);
    assert Sum([first] + more) == first + Sum(more);
    assert Flat(out, blocks) == front + Flat(end, rest);
    if a.Got? {
      PrefixBehind(front, a.bytes, Flat(end, rest));
    }
  }

  /** However the reads are cut, they return the contents, exactly when the list is steady. */
  lemma ChunkingIsIrrelevant(out: nat, blocks: seq<Event>)
    requires Ordered(out, blocks)
    ensures Steady(out, blocks) <==> forall sizes :: Exact(out, blocks, sizes)
  {
    if Steady(out, blocks) {
      forall sizes
        ensures Exact(out, blocks, sizes)
      {
        CallsAreExact(out, blocks, sizes);
      }
    } else {
      var sizes := UnsteadyLoses(out, blocks);
    }
  }

  /** In particular, whenever no block is empty. */
  lemma {:induction false} NonEmptyIsSteady(out: nat, blocks: seq<Event>)
    requires Ordered(out, blocks)
    requires forall i :: 0 <= i < |blocks| ==> blocks[i].Block? && blocks[i].data != []
    ensures Steady(out, blocks)
    decreases |blocks|
  {
    if blocks != [] {
      NonEmptyIsSteady(blocks[0].offset + |blocks[0].data|, blocks[1..]);
    }
  }

  // ---------- lists with failures between the blocks ----------

  /** What a caller sees who goes on reading after errors: the bytes of the calls that succeed, and how many were copied
      by calls that then failed; with the position and the blocks left. */
  datatype Log = Log(returned: seq<byte>, lost: nat, out: nat, rest: seq<Event>)

  ghost function Reads(out: nat, blocks: seq<Event>, sizes: seq<nat>): Log
    decreases |sizes|
  {
    if sizes == [] then Log([], 0, out, blocks)
    else
      var a := Call(out, blocks, sizes[0]);
      var later := Reads(a.out, a.rest, sizes[1..]);
      if a.Got? then later.(returned := a.bytes + later.returned) else later.(lost := |a.bytes| + later.lost)
  }

  /** The blocks before the first failure. */
  ghost function Lead(blocks: seq<Event>): (lead: seq<Event>)
    ensures |lead| <= |blocks| && lead == blocks[..|lead|]
    ensures |lead| < |blocks| ==> blocks[|lead|].Failure?
    ensures forall i {:trigger lead[i]} :: 0 <= i < |lead| ==> lead[i].Block?
  {
    if blocks == [] || blocks[0].Failure? then [] else [blocks[0]] + Lead(blocks[1..])
  }

  ghost predicate Fails(blocks: seq<Event>) {
    |Lead(blocks)| < |blocks|
  }

  /** The events after the first failure. */
  ghost function Later(blocks: seq<Event>): (later: seq<Event>)
    requires Fails(blocks)
    ensures |later| < |blocks|
  {
    blocks[|Lead(blocks)| + 1..]
  }

  /** Ordered and steady up to the first failure, and again from there. */
  ghost predicate Sound(out: nat, blocks: seq<Event>)
    decreases |blocks|
  {
    var lead := Lead(blocks);
    Ordered(out, lead) && Steady(out, lead) && (Fails(blocks) ==> Sound(out + |Flat(out, lead)|, Later(blocks)))
  }

  /** The contents, failures aside. */
  ghost function Contents(out: nat, blocks: seq<Event>): seq<byte>
    requires Sound(out, blocks)
    decreases |blocks|
  {
    var all := Flat(out, Lead(blocks));
    if Fails(blocks) then all + Contents(out + |all|, Later(blocks)) else all
  }

  /** How many bytes there are before the first failure, between it and the second, and so on. */
  ghost function Gaps(out: nat, blocks: seq<Event>): (gaps: seq<nat>)
    requires Sound(out, blocks)
    ensures gaps != [] && (|gaps| > 1 <==> Fails(blocks))
    decreases |blocks|
  {
    var n := |Flat(out, Lead(blocks))|;
    if Fails(blocks) then [n] + Gaps(out + n, Later(blocks)) else [n]
  }

  /** Every read that reaches past a failure starts right at it. */
  predicate StartsAtFailures(gaps: seq<nat>, sizes: seq<nat>)
    requires gaps != []
    decreases |sizes|
  {
    if sizes == [] || |gaps| == 1 then true
    else if sizes[0] > gaps[0] then gaps[0] == 0 && StartsAtFailures(gaps[1..], sizes[1..])
    else StartsAtFailures([gaps[0] - sizes[0]] + gaps[1..], sizes[1..])
  }

  /** A successful call moves on by what it returns, and so does a failing one by what it copies. */
  lemma {:induction false} Advances(out: nat, blocks: seq<Event>, s: nat)
    requires Ordered(out, blocks)
    ensures var a := Call(out, blocks, s); a.Got? && a.out == out + |a.bytes| && |a.bytes| <= s
    ensures var a := Call(out, blocks, s); |a.bytes| < s ==> a.rest == []
    decreases |blocks|
  {
    if s > 0 && blocks != [] && s >= blocks[0].offset - out + |blocks[0].data| && s > blocks[0].offset - out {
      Advances(blocks[0].offset + |blocks[0].data|, blocks[1..], s - (blocks[0].offset - out) - |blocks[0].data|);
    }
  }

  /** A list that begins with a failure. */
  predicate Failing(events: seq<Event>) {
    events != [] && events[0].Failure?
  }

  /** Where the last block ends. */
  ghost function End(out: nat, head: seq<Event>): nat
    requires Ordered(out, head)
    decreases |head|
  {
    if head == [] then out else End(head[0].offset + |head[0].data|, head[1..])
  }

  /** What stops a call that comes to `tail` at position `end`, with what code, leaving what: a failure, which is passed
      over, or a block that begins earlier, which is kept unless it is empty and answered with -10 (retry). */
  predicate Stops(end: nat, tail: seq<Event>, code: ErrorCode, left: seq<Event>) {
    tail != [] &&
    match tail[0]
    case Failure(c) => code == c && left == tail[1..]
    case Block(offset, data) => offset < end && code == -10 && left == if data == [] then tail[1..] else tail
  }

  /** A call on blocks with such a stop behind them is the call on the blocks alone, but that it is stopped if they do
      not suffice. */
  lemma {:induction false} CallIsStopped(out: nat, head: seq<Event>, tail: seq<Event>, s: nat, code: ErrorCode,
                                         left: seq<Event>)
    requires Ordered(out, head) && Stops(End(out, head), tail, code, left)
    ensures var a := Call(out, head, s);
            Call(out, head + tail, s) ==
            if |a.bytes| == s then Got(a.bytes, a.out, a.rest + tail) else Stopped(code, a.bytes, a.out, left)
    decreases |head|
  {
    hide Flat, Steady, Call, Stops;
    Advances(out, head, s);
    if head == [] {
      assert head + tail == tail;
      StopsAtOnce(out, tail, s, code, left);
    } else {
      var offset, data, rest := head[0].offset, head[0].data, head[1..];
      if s > 0 && s >= offset - out + |data| && s > offset - out {
        var s' := s - (offset - out) - |data|;
        Advances(offset + |data|, rest, s');
        CallIsStopped(offset + |data|, rest, tail, s', code, left);
        GoesPast(out, head, tail, s, code, left);
      } else {
        EndsBeforeFailure(out, head, tail, s);
      }
    }
  }

  lemma FailureStops(end: nat, fail: seq<Event>)
    requires Failing(fail)
    ensures Stops(end, fail, fail[0].code, fail[1..])
  {
  }

  lemma StopsAtOnce(out: nat, tail: seq<Event>, s: nat, code: ErrorCode, left: seq<Event>)
    requires Stops(out, tail, code, left)
    ensures Call(out, [], s) == Got([], out, [])
    ensures Call(out, tail, s) == if s == 0 then Got([], out, tail) else Stopped(code, [], out, left)
  {
  }

  /** A call that goes on behind the first block. */
  lemma GoesPast(out: nat, head: seq<Event>, tail: seq<Event>, s: nat, code: ErrorCode, left: seq<Event>)
    requires head != [] && head[0].Block? && out <= head[0].offset
    requires s >= head[0].offset - out + |head[0].data| && s > head[0].offset - out
    requires var end, s' := head[0].offset + |head[0].data|, s - (head[0].offset - out) - |head[0].data|;
             var b := Call(end, head[1..], s');
             b.Got? && |b.bytes| <= s' && Call(end, head[1..] + tail, s') ==
             if |b.bytes| == s' then Got(b.bytes, b.out, b.rest + tail) else Stopped(code, b.bytes, b.out, left)
    ensures var a := Call(out, head, s);
            Call(out, head + tail, s) ==
            if |a.bytes| == s then Got(a.bytes, a.out, a.rest + tail) else Stopped(code, a.bytes, a.out, left)
  {
    hide Flat, Steady, Call, Zeros, Ordered;
    var offset, data, rest := head[0].offset, head[0].data, head[1..];
    assert (head + tail)[0] == head[0] && (head + tail)[1..] == rest + tail;
    FirstBlock(out, head, s);
    FirstBlock(out, head + tail, s);
  }

  /** A call that ends in the hole before the first block, or inside that block. */
  lemma EndsBeforeFailure(out: nat, head: seq<Event>, fail: seq<Event>, s: nat)
    requires head != [] && head[0].Block? && out <= head[0].offset
    requires s <= head[0].offset - out || s < head[0].offset - out + |head[0].data|
    ensures var a := Call(out, head, s);
            |a.bytes| == s && Call(out, head + fail, s) == Got(a.bytes, a.out, a.rest + fail)
  {
    hide Flat, Steady, Call, Zeros, Ordered;
    var offset, data, rest := head[0].offset, head[0].data, head[1..];
    assert (head + fail)[0] == head[0] && (head + fail)[1..] == rest + fail;
    FirstBlock(out, head, s);
    FirstBlock(out, head + fail, s);
    if s > offset - out {
      var n := s - (offset - out);
      var left := [Block(offset + n, data[n..])];
      assert left + (rest + fail) == (left + rest) + fail;
    }
  }

  /** The gaps after a read of `s` bytes. */
  function GapsAfter(gaps: seq<nat>, s: nat): (r: seq<nat>)
    requires |gaps| > 1
    ensures r != []
  {
    if s > gaps[0] then gaps[1..] else [gaps[0] - s] + gaps[1..]
  }

  lemma {:induction false} OrderedHasNoFailure(out: nat, head: seq<Event>)
    requires Ordered(out, head)
    ensures forall i {:trigger head[i]} :: 0 <= i < |head| ==> head[i].Block?
    decreases |head|
  {
    if head != [] {
      var rest := head[1..];
      OrderedHasNoFailure(head[0].offset + |head[0].data|, rest);
      assert forall i {:trigger head[i]} :: 1 <= i < |head| ==> head[i] == rest[i - 1];
    }
  }

  lemma {:induction false} LeadIs(out: nat, head: seq<Event>, fail: seq<Event>)
    requires Ordered(out, head) && Failing(fail)
    ensures Lead(head + fail) == head && Fails(head + fail) && Later(head + fail) == fail[1..]
    decreases |head|
  {
    var all := head + fail;
    if head == [] {
      assert all == fail;
    } else {
      assert all[0] == head[0] && all[1..] == head[1..] + fail;
      LeadIs(head[0].offset + |head[0].data|, head[1..], fail);
      assert all[|head| + 1..] == fail[1..];
    }
  }

  /** Blocks put before a failure. */
  lemma Prepended(out: nat, head: seq<Event>, fail: seq<Event>)
    requires Failing(fail) && Ordered(out, head) && Steady(out, head) && Sound(out + |Flat(out, head)|, fail[1..])
    ensures var end := out + |Flat(out, head)|;
            && Sound(out, head + fail) && Contents(out, head + fail) == Flat(out, head) + Contents(end, fail[1..])
            && Gaps(out, head + fail) == [|Flat(out, head)|] + Gaps(end, fail[1..])
  {
    hide Flat, Steady, Lead, Later, Fails, Ordered, Failing;
    LeadIs(out, head, fail);
  }

  /** One read of a list with failures: what it copies is what comes next in the contents, and it fails exactly when it
      reaches past the next failure. */
  lemma OneRead(out: nat, blocks: seq<Event>, s: nat)
    requires Sound(out, blocks)
    ensures var a := Call(out, blocks, s);
            && Sound(a.out, a.rest) && a.bytes + Contents(a.out, a.rest) == Contents(out, blocks)
            && (a.Got? <==> !Fails(blocks) || s <= Gaps(out, blocks)[0])
            && (!Fails(blocks) ==> !Fails(a.rest))
            && (Fails(blocks) ==> Gaps(a.out, a.rest) == GapsAfter(Gaps(out, blocks), s))
            && (a.Stopped? ==> |a.bytes| == Gaps(out, blocks)[0] && a.code == blocks[|Lead(blocks)|].code)
  {
    var head := Lead(blocks);
    CallIsExact(out, head, s);
    Advances(out, head, s);
    var a := Call(out, head, s);
    if Fails(blocks) {
      var fail := blocks[|head|..];
      assert blocks == head + fail && Later(blocks) == fail[1..];
      ReadTowardsFailure(out, head, fail, s);
    } else {
      assert head == blocks;
      OrderedHasNoFailure(a.out, a.rest);
      assert Lead(a.rest) == a.rest;
    }
  }

  lemma ReadTowardsFailure(out: nat, head: seq<Event>, fail: seq<Event>, s: nat)
    requires Failing(fail) && Ordered(out, head) && Steady(out, head) && Sound(out + |Flat(out, head)|, fail[1..])
    requires Sound(out, head + fail) && CallExact(out, head, s)
    ensures var blocks := head + fail;
            var a := Call(out, blocks, s);
            && Sound(a.out, a.rest) && a.bytes + Contents(a.out, a.rest) == Contents(out, blocks)
            && Fails(blocks) && (a.Got? <==> s <= Gaps(out, blocks)[0])
            && Gaps(a.out, a.rest) == GapsAfter(Gaps(out, blocks), s)
            && (a.Stopped? ==> |a.bytes| == Gaps(out, blocks)[0] && a.code == fail[0].code)
  {
    hide Call, Steady, Ordered, Contents, Gaps, Sound, Stops, End;
    var all := Flat(out, head);
    LeadIs(out, head, fail);
    Prepended(out, head, fail);
    FailureStops(End(out, head), fail);
    CallIsStopped(out, head, fail, s, fail[0].code, fail[1..]);
    Advances(out, head, s);
    var a := Call(out, head, s);
    if s <= |all| {
      Prepended(a.out, a.rest, fail);
      Concat3(a.bytes, Flat(a.out, a.rest), Contents(out + |all|, fail[1..]));
    } else {
      assert Flat(a.out, []) == [];
    }
  }

  /** Reads lose bytes exactly when one of them reaches past a failure without starting at it; otherwise what they
      return is the contents as far as they go. */
  lemma {:induction false} NothingLostExactly(out: nat, blocks: seq<Event>, sizes: seq<nat>)
    requires Sound(out, blocks)
    ensures var log, all := Reads(out, blocks, sizes), Contents(out, blocks);
            && Sound(log.out, log.rest)
            && |log.returned| + log.lost + |Contents(log.out, log.rest)| == |all|
            && (log.lost == 0 <==> StartsAtFailures(Gaps(out, blocks), sizes))
            && (log.lost == 0 <==> log.returned + Contents(log.out, log.rest) == all)
    decreases |sizes|
  {
    if sizes != [] {
      OneRead(out, blocks, sizes[0]);
      var a := Call(out, blocks, sizes[0]);
      NothingLostExactly(a.out, a.rest, sizes[1..]);
      var later := Reads(a.out, a.rest, sizes[1..]);
      Concat3(a.bytes, later.returned, Contents(later.out, later.rest));
    }
  }

  /** A concrete hole before an empty block: read in one piece it is five zeros, and after a first byte nothing is
      left. */
  lemma HoleLost()
    ensures var blocks := [Block(5, [])];
            && Call(0, blocks, 10) == Got([0, 0, 0, 0, 0], 5, [])
            && Call(0, blocks, 1) == Got([0], 1, [])
  {
    var blocks := [Block(5, [])];
    assert blocks[1..] == [] && Zeros(5) == [0, 0, 0, 0, 0] && Zeros(1) == [0];
    assert Call(5, [], 5) == Got([], 5, []);
    assert Zeros(5) + ([] + []) == Zeros(5);
  }

  /** Three bytes are copied by a call that then fails; they are not returned by any. */
  lemma BytesLostToAnError()
    ensures var blocks := [Block(0, [7, 8, 9]), Failure(-20), Block(3, [5])];
            && Call(0, blocks, 10) == Stopped(-20, [7, 8, 9], 3, [Block(3, [5])])
            && Reads(0, blocks, [10, 10]) == Log([5], 3, 4, [])
            && Reads(0, blocks, [3, 10, 10]) == Log([7, 8, 9, 5], 0, 4, [])
  {
    var one, two, three := [Block(3, [5])], [Failure(-20)] + [Block(3, [5])], [Block(0, [7, 8, 9])];
    var blocks := [Block(0, [7, 8, 9]), Failure(-20), Block(3, [5])];
    assert blocks[1..] == two && two[1..] == one && one[1..] == [];
    assert Call(4, [], 9) == Got([], 4, []);
    assert Call(3, one, 10) == Got([5], 4, []);
    assert Call(3, two, 7) == Stopped(-20, [], 3, one);
    assert Call(3, two, 10) == Stopped(-20, [], 3, one);
    assert Call(3, two, 0) == Got([], 3, two);
    assert Call(0, blocks, 10) == Stopped(-20, [7, 8, 9], 3, one);
    assert Call(0, blocks, 3) == Got([7, 8, 9], 3, two);
  }

  /** The two halves of a turn of the loop: padding, then copying. */
  lemma Pad(out: nat, b: Event, script: seq<Event>, s: nat)
    requires b.Block? && b.offset >= out && s > 0
    ensures s <= b.offset - out ==>
              Call(out, [b] + script, s) == Got(Zeros(s), out + s, if b.data == [] then script else [b] + script)
    ensures s > b.offset - out ==>
              Call(out, [b] + script, s) == Call(b.offset, [b] + script, s - (b.offset - out))
              .After(Zeros(b.offset - out))
  {
    hide Call, Zeros;
    assert ([b] + script)[1..] == script;
    FirstBlock(out, [b] + script, s);
    if s > b.offset - out {
      var more := s - (b.offset - out);
      FirstBlock(b.offset, [b] + script, more);
      assert Zeros(0) == [];
      if more < |b.data| {
        assert Zeros(0) + b.data[..more] == b.data[..more];
      } else {
        AfterNothing(Call(b.offset + |b.data|, script, more - |b.data|).After(b.data));
      }
    }
  }

  lemma CallForNothing(out: nat, blocks: seq<Event>)
    ensures Call(out, blocks, 0) == Got([], out, blocks)
  {
  }

  lemma CopyPart(b: Event, script: seq<Event>, s: nat, n: nat)
    requires b.Block? && s > 0 && n == Min(|b.data|, s)
    ensures Call(b.offset, [b] + script, s) ==
            Call(b.offset + n, if n == |b.data| then script else [Block(b.offset + n, b.data[n..])] + script, s - n)
            .After(b.data[..n])
  {
    hide Call;
    FirstBlock(b.offset, [b] + script, s);
    assert ([b] + script)[1..] == script;
    assert Zeros(0) + b.data[..n] == b.data[..n] && b.data[..|b.data|] == b.data;
    var left := if n == |b.data| then script else [Block(b.offset + n, b.data[n..])] + script;
    CallForNothing(b.offset + n, left);
    AfterNothing(Call(b.offset + n, left, s - n).After(b.data[..n]));
  }

  /** What a turn does with a list that is at its end, or begins with a failure or an earlier block. */
  lemma FirstStops(out: nat, queue: seq<Event>, s: nat)
    requires s > 0
    ensures queue == [] ==> Call(out, queue, s) == Got([], out, queue)
    ensures queue != [] && queue[0].Failure? ==> Call(out, queue, s) == Stopped(queue[0].code, [], out, queue[1..])
    ensures queue != [] && queue[0].Block? && queue[0].offset < out ==>
              Call(out, queue, s) == Stopped(-10, [], out, if queue[0].data == [] then queue[1..] else queue)
  {
  }

  lemma AfterAfter(a: Answer, first: seq<byte>, second: seq<byte>)
    ensures a.After(second).After(first) == a.After(first + second)
  {
    if a.Got? {
      assert first + (second + a.bytes) == (first + second) + a.bytes;
    }
  }

  /** A memset or memcpy into the caller's buffer. */
  method Fill(buff: array<byte>, at: nat, bytes: seq<byte>)
    requires at + |bytes| <= buff.Length
    modifies buff
    ensures buff[..at + |bytes|] == old(buff[..at]) + bytes
  {
    forall i | 0 <= i < |bytes| {
      buff[at + i] := bytes[i];
    }
  }

  class Archive {
    // The block being read: its unread bytes and where they go.
    var block: seq<byte>
    var remaining: nat
    var offset: nat
    var outputOffset: nat
    // What the format reader still has to hand out.
    var script: seq<Event>

    ghost predicate Valid()
      reads this
    {
      remaining == |block|
    }

    /** The blocks to come, the one being read first. */
    ghost function Queue(): seq<Event>
      reads this
    {
      if block == [] then script else [Block(offset, block)] + script
    }

    constructor (script: seq<Event>)
      ensures Valid() && Queue() == script && outputOffset == 0
    {
      block, remaining, offset, outputOffset := [], 0, 0, 0;
      this.script := script;
    }

    /** Ask the format reader for a block. */
    method DataBlock() returns (r: int)
      requires Valid() && remaining == 0
      modifies this`block, this`remaining, this`offset, this`script
      ensures Valid()
      ensures old(script) == [] ==> r == ARCHIVE_EOF && unchanged(this)
      ensures old(script) != [] && old(script)[0].Failure? ==> r == old(script)[0].code && Queue() == old(script)[1..]
      ensures old(script) != [] && old(script)[0].Block? ==>
                r == ARCHIVE_OK && old(script) == [Block(offset, block)] + script
    {
      if script == [] {
        return ARCHIVE_EOF;
      }
      var event := script[0];
      script := script[1..];
      match event {
        case Failure(code) => return code;
        case Block(o, d) =>
          block, remaining, offset := d, |d|, o;
          return ARCHIVE_OK;
      }
    }

    /** Zeros up to the block, or as many as are asked for. */
    method PadUp(buff: array<byte>, dest: nat, s: nat) returns (len: nat)
      requires Valid() && s > 0 && dest + s <= buff.Length && offset >= outputOffset
      modifies this`outputOffset, buff
      ensures len == Min(s, offset - old(outputOffset)) && outputOffset == old(outputOffset) + len
      ensures buff[..dest + len] == old(buff[..dest]) + Zeros(len)
      ensures Call(old(outputOffset), [Block(offset, block)] + script, s) ==
              (if s - len > 0 then Call(offset, [Block(offset, block)] + script, s - len)
               else Got([], outputOffset, Queue()))
              .After(Zeros(len))
    {
      Pad(outputOffset, Block(offset, block), script, s);
      len := if outputOffset + s < offset then s
             else if outputOffset < offset then offset - outputOffset
             else 0;
      Fill(buff, dest, seq(len, _ => 0));
      outputOffset := outputOffset + len;
    }

    /** Bytes of the block, as many as there are or as are asked for. */
    method CopyOut(buff: array<byte>, dest: nat, s: nat) returns (len: nat)
      requires Valid() && s > 0 && dest + s <= buff.Length && offset == outputOffset
      modifies this`block, this`remaining, this`offset, this`outputOffset, buff
      ensures Valid() && len == Min(s, |old(block)|)
      ensures buff[..dest + len] == old(buff[..dest]) + old(block)[..len]
      ensures Call(old(offset), [old(Block(offset, block))] + script, s) ==
              Call(outputOffset, Queue(), s - len).After(old(block)[..len])
    {
      hide Call;
      len := remaining;
      if len > s {
        len := s;
      }
      CopyPart(Block(offset, block), script, s, len);
      Fill(buff, dest, block[..len]);
      block, remaining := block[len..], remaining - len;
      outputOffset, offset := outputOffset + len, offset + len;
    }

    /** The block is next: pad up to it, and copy from it if any of the `s` bytes asked for remain. */
    method Emit(buff: array<byte>, dest: nat, s: nat) returns (n: nat, ghost part: seq<byte>)
      requires Valid() && s > 0 && dest + s <= buff.Length && offset >= outputOffset
      modifies this`block, this`remaining, this`offset, this`outputOffset, buff
      ensures Valid() && n == |part| <= s
      ensures buff[..dest + n] == old(buff[..dest]) + part
      ensures Call(old(outputOffset), [old(Block(offset, block))] + script, s) ==
              Call(outputOffset, Queue(), s - n).After(part)
      ensures n == 0 ==> old(block) == []
    {
      hide Call;
      n := PadUp(buff, dest, s);
      part := Zeros(n);
      if s - n > 0 {
        ghost var data := block;
        var len := CopyOut(buff, dest + n, s - n);
        AfterAfter(Call(outputOffset, Queue(), s - n - len), part, data[..len]);
        Concat3(old(buff[..dest]), part, data[..len]);
        n, part := n + len, part + data[..len];
      } else {
        CallForNothing(outputOffset, Queue());
      }
    }

    /** One turn of the loop. */
    method Turn(buff: array<byte>, dest: nat, s: nat) returns (code: int, n: nat, ghost part: seq<byte>)
      requires Valid() && s > 0 && dest + s <= buff.Length
      modifies this, buff
      ensures Valid() && n == |part| <= s
      ensures buff[..dest + n] == old(buff[..dest]) + part
      ensures code == ARCHIVE_OK ==>
                && Call(old(outputOffset), old(Queue()), s) == Call(outputOffset, Queue(), s - n).After(part)
                && |script| <= |old(script)| && (n == 0 ==> |script| < |old(script)|)
      ensures code == ARCHIVE_EOF ==>
                n == 0 && Call(old(outputOffset), old(Queue()), s) == Got([], outputOffset, Queue())
      ensures code < ARCHIVE_OK ==>
                n == 0 && Call(old(outputOffset), old(Queue()), s) == Stopped(code, [], outputOffset, Queue())
      ensures code <= ARCHIVE_EOF
    {
      hide Call;
      n, part := 0, [];
      FirstStops(outputOffset, Queue(), s);
      if remaining == 0 {
        code := DataBlock();
        if code != ARCHIVE_OK {
          return;
        }
      }
      assert old(Queue()) == [Block(offset, block)] + script;
      if offset < outputOffset {
        return ARCHIVE_RETRY, 0, [];
      }
      n, part := Emit(buff, dest, s);
      code := ARCHIVE_OK;
    }

    method ReadData(buff: array<byte>, size: nat) returns (r: int)
      requires Valid() && size <= buff.Length
      modifies this, buff
      ensures Valid()
      ensures var a := Call(old(outputOffset), old(Queue()), size);
              && outputOffset == a.out && Queue() == a.rest
              && |a.bytes| <= buff.Length && buff[..|a.bytes|] == a.bytes
              && r == if a.Got? then |a.bytes| else a.code
      // Of a steady list without failures, the next bytes of the contents, and the others are left.
      ensures old(Ordered(outputOffset, Queue()) && Steady(outputOffset, Queue())) ==>
                && Ordered(outputOffset, Queue()) && r == Min(size, |old(Flat(outputOffset, Queue()))|)
                && 0 <= r && buff[..r] + Flat(outputOffset, Queue()) == old(Flat(outputOffset, Queue()))
    {
      hide Call, Flat, Steady, Ordered;
      var s: nat, dest: nat := size, 0;
      if Ordered(outputOffset, Queue()) && Steady(outputOffset, Queue()) {
        CallIsExact(outputOffset, Queue(), size);
      }
      ghost var goal := Call(outputOffset, Queue(), s);
      while s > 0
        invariant Valid() && dest + s == size
        invariant goal == Call(outputOffset, Queue(), s).After(buff[..dest])
        decreases s, |script|
      {
        ghost var done := buff[..dest];
        var code, n, part := Turn(buff, dest, s);
        if code == ARCHIVE_EOF {
          return dest;
        }
        if code < ARCHIVE_OK {
          return code;
        }
        ghost var now := Call(outputOffset, Queue(), s - n);
        assert goal == now.After(part).After(done);
        AfterAfter(now, done, part);
        s, dest := s - n, dest + n;
        assert buff[..dest] == done + part;
      }
      CallForNothing(outputOffset, Queue());
      return dest;
    }
  }
}
