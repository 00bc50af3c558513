/** The two-level look-ahead buffer of a read filter: a growable copy buffer in front of the
    block most recently lent by the client. */
module LookAhead {
  import opened Bytes

  /** What one call of the read callback reports; `Data([])` is its end-of-file report. */
  datatype ReadResult = Data(bytes: seq<byte>) | ReadError {
    function Delivered(): seq<byte> {
      if Data? then bytes else []
    }
  }

  /** A C pointer into one of the two buffers. */
  datatype Pointer = Null | Copy(index: nat) | Client(offset: nat)

  /** How asking the client for more ended. */
  datatype ReadStatus = GotBlock | Switched | AtEnd | Broken

  /** The bytes that the calls number `from`, ..., `to - 1` of the read callback deliver. */
  ghost function Input(source: nat -> ReadResult, from: nat, to: nat): seq<byte>
    decreases to - from
  {
    if from >= to then []
    else source(from).Delivered() + Input(source, from + 1, to)
  }

  lemma {:induction false} InputSplits(source: nat -> ReadResult, from: nat, mid: nat, to: nat)
    requires from <= mid <= to
    ensures Input(source, from, to) == Input(source, from, mid) + Input(source, mid, to)
    decreases mid - from
  {
    if from < mid {
      InputSplits(source, from + 1, mid, to);
    }
  }

  lemma InputOne(source: nat -> ReadResult, i: nat)
    ensures Input(source, i, i + 1) == source(i).Delivered()
  {
    assert Input(source, i + 1, i + 1) == [];
  }

  lemma ReadAppends(source: nat -> ReadResult, start: seq<byte>, from: nat, mid: nat, to: nat)
    requires from <= mid <= to
    ensures start + Input(source, from, to) == start + Input(source, from, mid) + Input(source, mid, to)
  {
    InputSplits(source, from, mid, to);
    assert start + (Input(source, from, mid) + Input(source, mid, to)) ==
           start + Input(source, from, mid) + Input(source, mid, to);
  }

  ghost function ClientWindow(block: seq<byte>, start: nat, n: nat): seq<byte>
    requires n > 0 ==> start + n <= |block|
  {
    if n == 0 then [] else block[start..start + n]
  }

  /** The client window `[start, start + n)` is in its block, of which `total - n` bytes have gone;
      as much of the end of the copied bytes as the block can account for stands just before it. */
  ghost predicate View(copied: seq<byte>, block: seq<byte>, start: nat, n: nat, total: nat) {
    && n <= total && start + n <= |block|
    && Min(|copied|, total - n) <= start
    && forall i | start - Min(|copied|, total - n) <= i < start :: block[i] == copied[i - start + |copied|]
  }

  lemma ViewAfterCopy(copied: seq<byte>, block: seq<byte>, start: nat, n: nat, total: nat, moved: nat)
    requires View(copied, block, start, n, total) && moved <= n
    ensures View(copied + block[start..start + moved], block, start + moved, n - moved, total)
    ensures copied + ClientWindow(block, start, n) ==
            copied + block[start..start + moved] + ClientWindow(block, start + moved, n - moved)
  {
  }

  lemma ViewAfterConsume(copied: seq<byte>, block: seq<byte>, start: nat, n: nat, total: nat,
                         fromCopy: nat, fromClient: nat)
    requires View(copied, block, start, n, total)
    requires fromCopy <= |copied| && fromClient <= n && (fromCopy == |copied| || fromClient == 0)
    ensures View(copied[fromCopy..], block, start + fromClient, n - fromClient, total)
    ensures copied[fromCopy..] + ClientWindow(block, start + fromClient, n - fromClient) ==
            (copied + ClientWindow(block, start, n))[fromCopy + fromClient..]
  {
  }

  lemma SplitWindow(all: seq<byte>, n: nat, take: nat)
    requires take <= n <= |all|
    ensures all[..n][..take] + all[take..] == all
  {
  }

  lemma PrefixOf(a: seq<byte>, b: seq<byte>)
    ensures (a + b)[..|a|] == a
  {
  }

  lemma ViewAllClient(copied: seq<byte>, block: seq<byte>, start: nat, n: nat, total: nat)
    requires View(copied, block, start, n, total) && total >= n + |copied|
    ensures |copied| <= start && start + n <= |block|
    ensures View([], block, start - |copied|, n + |copied|, total)
    ensures copied + ClientWindow(block, start, n) == block[start - |copied|..start + n]
  {
  }

  /** The first of `size`, `2 * size`, `4 * size`, ... that is at least `min`. */
  ghost function Doubled(size: nat, min: nat): (s: nat)
    requires size > 0
    ensures s >= size && s >= min && (size < min ==> s < 2 * min)
    decreases min - size
  {
    if size >= min then size else Doubled(2 * size, min)
  }

  /** The size asked of malloc: an empty buffer starts at exactly `min`. */
  ghost function GrownSize(size: nat, min: nat): nat
    requires min > 0
  {
    if size == 0 then min else Doubled(size, min)
  }

  /** The size grows to the first that is enough among its doublings. */
  lemma {:induction false} DoubledExactly(size: nat, min: nat) returns (k: nat)
    requires size > 0
    ensures Doubled(size, min) == size * Pow2(k) >= min
    ensures k > 0 ==> size * Pow2(k - 1) < min
    decreases min - size
  {
    if size >= min {
      k := 0;
    } else {
      k := DoubledExactly(2 * size, min);
      DoubledOnce(size, k);
      if k > 0 {
        DoubledOnce(size, k - 1);
      }
      k := k + 1;
    }
  }

  lemma DoubledOnce(size: nat, k: nat)
    ensures 2 * size * Pow2(k) == size * Pow2(k + 1)
  {
    assert Pow2(k + 1) == 2 * Pow2(k);
  }

  /** The doubling loop, with the wrap-around of a 64-bit size_t. */
  method Grow(size: nat, min: nat) returns (r: Option<nat>)
    requires size < min < TWO64
    ensures r.Some? <==> GrownSize(size, min) < TWO64
    ensures r.Some? ==> r.value == GrownSize(size, min)
  {
    var s, t := size, size;
    if s == 0 {
      s := min;
    }
    while s < min
      invariant size == 0 ==> s == min
      invariant size > 0 ==> s == t > 0 && Doubled(s, min) == Doubled(size, min)
      invariant s < TWO64
      decreases min - s
    {
      t := (t * 2) % TWO64;
      if t <= s {
        return None;
      }
      s := t;
    }
    return Some(s);
  }

  class Filter {
    var fatal: bool
    var endOfFile: bool
    // The copy buffer; buffer_size is its length.
    var buffer: array<byte>
    var next: nat
    var avail: nat
    // The memory `client_next` points into, and the window on it.
    var block: seq<byte>
    var clientNull: bool
    var clientNext: nat
    var clientAvail: nat
    var clientTotal: nat
    // The client: volume number, volume count, and how often it has been asked to read.
    var cursor: nat
    const nodes: nat
    var readCalls: nat
    // The environment: the answer to every read, to every volume switch, to every malloc.
    const source: nat -> ReadResult
    const switchOk: nat -> bool
    const allocates: nat -> bool

    ghost predicate Core()
      reads this
    {
      && next + avail <= buffer.Length < TWO64
      && clientAvail <= clientTotal
      && (clientAvail > 0 ==> clientNext + clientAvail <= |block|)
      && cursor < nodes
      && (clientNull ==> clientTotal == 0)
      && (endOfFile ==> clientTotal == 0)
    }

    /** The bytes in the copy buffer. */
    ghost function Copied(): seq<byte>
      reads this, buffer
      requires Core()
    {
      buffer[next..next + avail]
    }

    ghost predicate ClientView()
      reads this, buffer
      requires Core()
    {
      View(Copied(), block, clientNext, clientAvail, clientTotal)
    }

    ghost predicate Valid()
      reads this, buffer
    {
      Core() && ClientView()
    }

    /** Everything read from the client and not yet consumed. */
    ghost function Buffered(): seq<byte>
      reads this, buffer
      requires Core()
    {
      Copied() + ClientWindow(block, clientNext, clientAvail)
    }

    /** The logical stream ahead of the reader, as far as the first `horizon` reads show it. */
    ghost function Remaining(horizon: nat): seq<byte>
      reads this, buffer
      requires Valid()
    {
      Buffered() + Input(source, readCalls, horizon)
    }

    /** The `n` bytes a pointer designates. */
    ghost function Window(p: Pointer, n: nat): seq<byte>
      reads this, buffer
      requires !p.Null?
      requires p.Copy? ==> p.index + n <= buffer.Length
      requires p.Client? ==> p.offset + n <= |block|
    {
      match p
      case Copy(i) => buffer[i..i + n]
      case Client(i) => block[i..i + n]
    }

    /** Look at the first `n` bytes behind a pointer. */
    method Fetch(p: Pointer, n: nat) returns (bytes: seq<byte>)
      requires !p.Null?
      requires p.Copy? ==> p.index + n <= buffer.Length
      requires p.Client? ==> p.offset + n <= |block|
      ensures bytes == Window(p, n)
    {
      bytes := if p.Copy? then buffer[p.index..p.index + n] else block[p.offset..p.offset + n];
    }

    /** The window after the last read of the client was an end-of-file report that the loop
        survived: it may dangle, but the request is still short of bytes, so nothing looks. */
    ghost predicate InLoop(min: nat)
      reads this, buffer
    {
      Core() && (ClientView() || (clientAvail == 0 && avail < min && !endOfFile))
    }

    constructor (nodes: nat, source: nat -> ReadResult, switchOk: nat -> bool, allocates: nat -> bool)
      requires nodes > 0
      ensures Valid() && fresh(buffer) && Buffered() == [] && readCalls == 0
      ensures !fatal && !endOfFile && cursor == 0
      ensures this.nodes == nodes && this.source == source
      ensures this.switchOk == switchOk && this.allocates == allocates
    {
      fatal, endOfFile := false, false;
      buffer := new byte[0];
      next, avail := 0, 0;
      block, clientNull, clientNext, clientAvail, clientTotal := [], true, 0, 0, 0;
      cursor, readCalls := 0, 0;
      this.nodes, this.source, this.switchOk, this.allocates := nodes, source, switchOk, allocates;
      new;
      assert Copied() == [];
    }

    /** Give back everything copied to the client window it came from. */
    method RollBack(min: nat)
      requires InLoop(min)
      requires !(avail >= min && avail > 0)
      requires clientTotal >= clientAvail + avail && clientAvail + avail >= min
      modifies this`avail, this`next, this`clientAvail, this`clientNext
      ensures Valid() && avail == 0
      ensures Buffered() == old(Buffered())
      ensures clientAvail == |Buffered()|
      ensures Buffered() == block[clientNext..clientNext + clientAvail]
    {
      hide View;
      ViewAllClient(Copied(), block, clientNext, clientAvail, clientTotal);
      clientAvail := clientAvail + avail;
      clientNext := clientNext - avail;
      avail := 0;
      next := 0;
      assert Copied() == [];
    }

    /** Slide the copied bytes to the front when the request would not fit behind them. */
    method MoveForward(min: nat)
      requires InLoop(min)
      modifies this`next, buffer
      ensures InLoop(min) && Copied() == old(Copied())
      ensures next == 0 || next + min <= buffer.Length
    {
      if next > 0 && next + min > buffer.Length {
        if avail > 0 {
          forall i | 0 <= i < avail {
            buffer[i] := buffer[next + i];
          }
        }
        next := 0;
        assert Copied() == old(Copied());
      }
    }

    /** Replace the copy buffer by one of at least `min` bytes. */
    method EnsureCapacity(min: nat) returns (ok: bool)
      requires Valid() && 0 < min < TWO64
      requires next == 0 || next + min <= buffer.Length
      modifies this`buffer, this`next
      ensures Valid() && Copied() == old(Copied())
      ensures buffer == old(buffer) || fresh(buffer)
      ensures ok <==> (old(buffer.Length) >= min ||
                       (GrownSize(old(buffer.Length), min) < TWO64 && allocates(GrownSize(old(buffer.Length), min))))
      ensures ok ==> next + min <= buffer.Length
      ensures ok && old(buffer.Length) < min ==> next == 0 && buffer.Length == GrownSize(old(buffer.Length), min)
      ensures !ok || old(buffer.Length) >= min ==> buffer == old(buffer) && next == old(next)
    {
      ok := true;
      if min > buffer.Length {
        var s := Grow(buffer.Length, min);
        if s.None? || !allocates(s.value) {
          return false;
        }
        var p := new byte[s.value];
        forall i | 0 <= i < avail {
          p[i] := buffer[next + i];
        }
        assert p[..avail] == Copied();
        buffer := p;
        next := 0;
        assert Copied() == old(Copied());
      }
    }

    /** The memcpy behind the copied bytes. */
    method Append(tocopy: nat)
      requires Core() && tocopy <= clientAvail && clientNext + clientAvail <= |block|
      requires next + avail + tocopy <= buffer.Length
      modifies buffer
      ensures buffer[next..next + avail + tocopy] == old(Copied()) + block[clientNext..clientNext + tocopy]
    {
      forall i | 0 <= i < tocopy {
        buffer[next + avail + i] := block[clientNext + i];
      }
    }

    /** How much to copy: fill the buffer, but no more than asked for and no more than there is. */
    function ToCopy(min: nat): (tocopy: nat)
      reads this, buffer
      requires Core() && clientAvail > 0 && avail < min && next + min <= buffer.Length
      ensures tocopy == Min(min - avail, clientAvail)
    {
      var fill := buffer.Length - (next + avail);
      var wanted := if fill + avail > min then min - avail else fill;
      if wanted > clientAvail then clientAvail else wanted
    }

    /** Move bytes from the client window to the end of the copy buffer. */
    method CopyFromClient(min: nat)
      requires Valid() && clientAvail > 0 && avail < min
      requires next + min <= buffer.Length
      modifies this`avail, this`clientNext, this`clientAvail, buffer
      ensures Valid() && Buffered() == old(Buffered())
      ensures avail == Min(min, old(avail + clientAvail))
    {
      hide View, ClientWindow;
      var tocopy := ToCopy(min);
      ghost var copied, start, n := Copied(), clientNext, clientAvail;
      ViewAfterCopy(copied, block, start, n, clientTotal, tocopy);
      Append(tocopy);
      clientNext := clientNext + tocopy;
      clientAvail := clientAvail - tocopy;
      avail := avail + tocopy;
      assert Copied() == copied + block[start..start + tocopy];
    }

    /** Forget the client window, as an error or the end of the input does. */
    method DropClient()
      requires Core() && clientAvail == 0
      modifies this`clientTotal, this`clientAvail, this`clientNext, this`clientNull, this`block
      ensures Valid() && clientAvail == 0 && clientTotal == 0 && Buffered() == old(Buffered())
    {
      clientTotal, clientAvail := 0, 0;
      block, clientNext, clientNull := [], 0, true;
    }

    /** Buffer more of the client window than there was room for. */
    method GrowAndCopy(min: nat) returns (ok: bool)
      requires Valid() && !fatal && clientAvail > 0 && avail < min < TWO64
      requires next == 0 || next + min <= buffer.Length
      modifies this`fatal, this`buffer, this`next, this`avail, this`clientNext, this`clientAvail, buffer
      ensures Valid() && Buffered() == old(Buffered())
      ensures buffer == old(buffer) || fresh(buffer)
      ensures buffer.Length == old(buffer.Length) || buffer.Length >= min
      ensures fatal <==> !ok
      ensures ok ==> avail == Min(min, old(avail + clientAvail))
      ensures !ok ==> FatalCause(min, old(buffer.Length))
    {
      ok := EnsureCapacity(min);
      if ok {
        CopyFromClient(min);
      } else {
        fatal := true;
      }
    }

    /** Ask the client for a block; at the end of a volume, for the next volume. */
    method ReadMore() returns (status: ReadStatus)
      requires Core() && clientAvail == 0 && !endOfFile && !fatal
      modifies this`fatal, this`endOfFile, this`block, this`clientNull, this`clientNext,
               this`clientAvail, this`clientTotal, this`cursor, this`readCalls
      ensures Core() && readCalls == old(readCalls) + 1
      ensures status.Switched? || ClientView()
      ensures status.GotBlock? || clientAvail == 0
      ensures status.GotBlock? ==> source(readCalls - 1) == Data(block) && Buffered() == old(Buffered()) + block
      ensures !status.GotBlock? ==> source(readCalls - 1).Delivered() == [] && Buffered() == old(Buffered())
      ensures status.GotBlock? ==> cursor == old(cursor) && clientAvail > 0
      ensures status.Switched? ==> cursor == old(cursor) + 1
      ensures fatal <==> status.Broken?
      ensures endOfFile <==> status.AtEnd?
      ensures status.Broken? ==> source(readCalls - 1).ReadError?
      ensures status.AtEnd? ==> InputExhausted()
    {
      hide View, ClientWindow;
      var r := source(readCalls);
      readCalls := readCalls + 1;
      if r.ReadError? {
        DropClient();
        fatal := true;
        return Broken;
      }
      if |r.bytes| == 0 {
        status := NextVolume();
      } else {
        Adopt(r.bytes);
        status := GotBlock;
      }
    }

    /** After an end-of-file report: go to the next volume if there is one. */
    method NextVolume() returns (status: ReadStatus)
      requires Core() && clientAvail == 0 && !endOfFile
      requires readCalls > 0 && source(readCalls - 1) == Data([])
      modifies this`endOfFile, this`block, this`clientNull, this`clientNext, this`clientAvail,
               this`clientTotal, this`cursor
      ensures Core() && clientAvail == 0 && Buffered() == old(Buffered())
      ensures status.Switched? || status.AtEnd?
      ensures status.Switched? ==> cursor == old(cursor) + 1 && !endOfFile
      ensures status.AtEnd? ==> endOfFile && ClientView() && InputExhausted()
    {
      hide View;
      block := [];
      if cursor != nodes - 1 {
        cursor := cursor + 1;
        if switchOk(cursor) {
          return Switched;
        }
      }
      DropClient();
      endOfFile := true;
      return AtEnd;
    }

    /** Start on the block the client has just lent. */
    method Adopt(lent: seq<byte>)
      requires Core() && clientAvail == 0 && !endOfFile && lent != []
      modifies this`block, this`clientTotal, this`clientAvail, this`clientNext, this`clientNull
      ensures Valid() && block == lent && clientAvail == |lent| && Buffered() == old(Buffered()) + lent
    {
      block := lent;
      clientTotal := |block|;
      clientAvail := clientTotal;
      clientNext, clientNull := 0, false;
      assert block[0..|block|] == block;
    }

    /** What an answer means in the state it leaves. A pointer designates exactly the next `n` bytes
        of the stream, and `n` counts all there are in one stretch: everything buffered if that is in the
        client's block, and otherwise everything copied. A null pointer is a fatal state, an empty request
        without any block, or the end of the input: less than `min` is left, and only the call that finds
        out says how much. */
    ghost predicate Answered(min: nat, p: Pointer, n: int, eofKnown: bool)
      reads this, buffer
      requires Valid()
    {
      && (n == ARCHIVE_FATAL <==> fatal)
      && (fatal ==> p.Null?)
      && (!p.Null? ==>
           && min <= n <= |Buffered()|
           && (p.Copy? ==> p.index + n <= buffer.Length)
           && (p.Client? ==> p.offset + n <= |block|)
           && Window(p, n) == Buffered()[..n])
      && (p.Copy? ==> n == avail > 0)
      && (p.Client? ==> n == |Buffered()| && !clientNull)
      && (p.Null? && !fatal && min == 0 ==> n == 0 && Buffered() == [] && clientNull)
      && (p.Null? && !fatal && min > 0 ==>
           && endOfFile && clientAvail == 0
           && |Buffered()| < min
           && n == (if eofKnown then 0 else |Buffered()|))
    }

    /** The two things that can make a state fatal: a read error, or no memory for the copy buffer. */
    ghost predicate FatalCause(min: nat, bufferSize: nat)
      reads this
      requires min > 0
    {
      || (readCalls > 0 && source(readCalls - 1).ReadError?)
      || (min > bufferSize && (GrownSize(bufferSize, min) >= TWO64 || !allocates(GrownSize(bufferSize, min))))
    }

    /** The input is exhausted: an end-of-file report with no further volume to go to. */
    ghost predicate InputExhausted()
      reads this
    {
      readCalls > 0 && source(readCalls - 1) == Data([]) && (cursor == nodes - 1 || !switchOk(cursor))
    }

    /** A turn that does not answer reaches a later volume, or copies, or gets a block to copy from. */
    ghost predicate Progress(min: nat, cursor0: nat, avail0: nat, clientAvail0: nat)
      reads this
    {
      avail <= min &&
      (cursor > cursor0
       || (cursor == cursor0 && avail > avail0)
       || (cursor == cursor0 && avail == avail0 && clientAvail0 == 0 < clientAvail))
    }

    lemma CopyAnswers(min: nat)
      requires Valid() && !fatal && avail >= min && avail > 0
      ensures Answered(min, Copy(next), avail, endOfFile)
    {
      PrefixOf(Copied(), ClientWindow(block, clientNext, clientAvail));
    }

    lemma ClientAnswers(min: nat)
      requires Valid() && !fatal && avail == 0 && clientAvail >= min && clientAvail == |Buffered()|
      requires Buffered() == block[clientNext..clientNext + clientAvail]
      ensures Answered(min, if clientNull then Null else Client(clientNext), clientAvail, endOfFile)
    {
      assert Buffered()[..clientAvail] == Buffered();
    }

    /** Enough has been copied already. */
    predicate AtOnce(min: nat)
      reads this
    {
      avail >= min && avail > 0
    }

    /** Everything buffered is enough, and the client's block holds it. */
    predicate AllInBlock(min: nat)
      reads this
    {
      clientTotal >= clientAvail + avail >= min
    }

    /** The two ways to answer without touching the client. */
    method Satisfy(min: nat) returns (done: bool, p: Pointer, n: int)
      requires InLoop(min) && !fatal
      modifies this`avail, this`next, this`clientAvail, this`clientNext
      ensures InLoop(min) && Buffered() == old(Buffered())
      ensures done ==> Valid() && Answered(min, p, n, endOfFile)
      ensures old(AtOnce(min)) ==> done && unchanged(this) && p == Copy(next) && n == avail
      ensures !old(AtOnce(min)) ==> (done <==> old(AllInBlock(min))) && !p.Copy? && (done ==> n == |Buffered()|)
      ensures !done ==> unchanged(this) && avail < min
    {
      p, n := Null, 0;
      if avail >= min && avail > 0 {
        CopyAnswers(min);
        return true, Copy(next), avail;
      }
      if clientTotal >= clientAvail + avail && clientAvail + avail >= min {
        RollBack(min);
        ClientAnswers(min);
        return true, (if clientNull then Null else Client(clientNext)), clientAvail;
      }
      done := false;
    }

    method AskClient(ghost min: nat) returns (done: bool, n: int)
      requires InLoop(min) && !fatal && !endOfFile && clientAvail == 0 && avail < min
      modifies this`fatal, this`endOfFile, this`block, this`clientNull, this`clientNext,
               this`clientAvail, this`clientTotal, this`cursor, this`readCalls
      ensures InLoop(min) && readCalls == old(readCalls) + 1
      ensures Buffered() == old(Buffered()) + Input(source, old(readCalls), readCalls)
      ensures done ==> Valid() && Answered(min, Null, n, false)
      ensures fatal ==> done && source(readCalls - 1).ReadError?
      ensures endOfFile ==> done && InputExhausted()
      ensures !done ==> Progress(min, old(cursor), avail, 0)
    {
      InputOne(source, readCalls);
      var status := ReadMore();
      done := status.Broken? || status.AtEnd?;
      n := if status.Broken? then ARCHIVE_FATAL else avail;
    }

    /** Buffer more for a request that cannot be answered yet. */
    method Refill(min: nat) returns (done: bool, n: int)
      requires InLoop(min) && !fatal && avail < min < TWO64
      modifies this, buffer
      ensures InLoop(min) && (buffer == old(buffer) || fresh(buffer))
      ensures buffer.Length == old(buffer.Length) || buffer.Length >= min
      ensures old(readCalls) <= readCalls <= old(readCalls) + 1
      ensures Buffered() == old(Buffered()) + Input(source, old(readCalls), readCalls)
      ensures readCalls > old(readCalls) ==> |old(Buffered())| < min && !old(endOfFile)
      ensures done ==> Valid() && Answered(min, Null, n, old(endOfFile))
      ensures fatal ==> done && FatalCause(min, old(buffer.Length))
      ensures endOfFile && !old(endOfFile) ==> done && InputExhausted() && readCalls > old(readCalls)
      ensures old(endOfFile) ==> endOfFile
      ensures !done ==> Progress(min, old(cursor), old(avail), old(clientAvail))
    {
      MoveForward(min);
      if clientAvail == 0 {
        if endOfFile {
          return true, 0;
        }
        done, n := AskClient(min);
      } else {
        var ok := GrowAndCopy(min);
        return !ok, if ok then 0 else ARCHIVE_FATAL;
      }
    }

    /** One turn of the loop: answer from what is buffered, or else buffer more. */
    method Turn(min: nat) returns (done: bool, p: Pointer, n: int)
      requires InLoop(min) && !fatal && min < TWO64
      modifies this, buffer
      ensures InLoop(min) && (buffer == old(buffer) || fresh(buffer))
      ensures buffer.Length == old(buffer.Length) || buffer.Length >= min
      ensures old(readCalls) <= readCalls <= old(readCalls) + 1
      ensures Buffered() == old(Buffered()) + Input(source, old(readCalls), readCalls)
      ensures readCalls > old(readCalls) ==> |old(Buffered())| < min && !old(endOfFile)
      ensures done ==> Valid() && Answered(min, p, n, old(endOfFile))
      ensures fatal ==> done && min > 0 && FatalCause(min, old(buffer.Length))
      ensures endOfFile && !old(endOfFile) ==> done && InputExhausted() && readCalls > old(readCalls)
      ensures old(endOfFile) ==> endOfFile
      ensures old(AtOnce(min)) ==> done && unchanged(this) && p == Copy(next) && n == avail
      ensures old(!AtOnce(min) && AllInBlock(min)) ==>
                done && readCalls == old(readCalls) && !p.Copy? && n == |old(Buffered())|
      ensures !done ==> Progress(min, old(cursor), old(avail), old(clientAvail))
    {
      done, p, n := Satisfy(min);
      if !done {
        p := Null;
        done, n := Refill(min);
      }
    }

    /** More of the stream has been read into the buffers; seen as far as any later read, it is the same stream. */
    lemma SeenFarther(start: seq<byte>, from: nat)
      requires Valid() && from <= readCalls && Buffered() == start + Input(source, from, readCalls)
      ensures forall h: nat :: h >= readCalls ==> Remaining(h) == start + Input(source, from, h)
    {
      forall h: nat | h >= readCalls
        ensures Remaining(h) == start + Input(source, from, h)
      {
        ReadAppends(source, start, from, readCalls, h);
      }
    }

    /** Return a pointer to at least `min` bytes of the stream without consuming any. */
    method Ahead(min: nat) returns (p: Pointer, n: int)
      requires Valid() && min < TWO64
      modifies this, buffer
      ensures Valid() && (buffer == old(buffer) || fresh(buffer))
      // A pure peek: the only change to the stream is that more of it has been read.
      ensures old(readCalls) <= readCalls
      ensures Buffered() == old(Buffered()) + Input(source, old(readCalls), readCalls)
      ensures forall h: nat :: h >= readCalls ==> Remaining(h) == old(Remaining(h))
      // No reading ahead of need.
      ensures readCalls > old(readCalls) ==> |old(Buffered())| < min && !old(endOfFile)
      ensures Answered(min, p, n, old(endOfFile))
      // What was copied before is shown where it is, and what the client's block holds is shown there.
      ensures !old(fatal) && old(avail >= min && avail > 0) ==> unchanged(this) && p == Copy(next) && n == avail
      ensures !old(fatal) && old(!(avail >= min && avail > 0) && clientTotal >= clientAvail + avail >= min) ==>
                readCalls == old(readCalls) && !p.Copy? && n == |old(Buffered())|
      ensures old(fatal) ==> fatal && unchanged(this) && unchanged(buffer)
      ensures fatal && !old(fatal) ==> min > 0 && FatalCause(min, old(buffer.Length))
      ensures endOfFile && !old(endOfFile) ==> InputExhausted() && readCalls > old(readCalls)
      ensures old(endOfFile) ==> endOfFile
    {
      hide View, ClientWindow;
      if fatal {
        return Null, ARCHIVE_FATAL;
      }
      ghost var start, from, first := Buffered(), readCalls, true;
      while true
        invariant if first then unchanged(this) && unchanged(buffer) else !old(AtOnce(min) || AllInBlock(min))
        invariant InLoop(min) && !fatal && endOfFile == old(endOfFile)
        invariant buffer == old(buffer) || fresh(buffer)
        invariant buffer.Length == old(buffer.Length) || buffer.Length >= min
        invariant from <= readCalls
        invariant Buffered() == start + Input(source, from, readCalls)
        invariant readCalls > from ==> |start| < min && !endOfFile
        decreases nodes - cursor, min - avail, if clientAvail == 0 then 1 else 0
      {
        ghost var before := readCalls;
        var done;
        done, p, n := Turn(min);
        ReadAppends(source, start, from, before, readCalls);
        if done {
          SeenFarther(start, from);
          return;
        }
        first := false;
      }
    }

    /** Give up the next `n` buffered bytes, copied ones first. */
    method Consume(n: nat)
      requires Valid() && n <= |Buffered()|
      modifies this`next, this`avail, this`clientNext, this`clientAvail
      ensures Valid() && Buffered() == old(Buffered())[n..]
    {
      hide View;
      var fromCopy := Min(n, avail);
      ghost var copied := Copied();
      ViewAfterConsume(copied, block, clientNext, clientAvail, clientTotal, fromCopy, n - fromCopy);
      next, avail := next + fromCopy, avail - fromCopy;
      clientNext, clientAvail := clientNext + (n - fromCopy), clientAvail - (n - fromCopy);
      assert Copied() == copied[fromCopy..];
    }

    /** Take the first of the bytes that a peek shows. */
    method TakeFront(p: Pointer, n: nat, take: nat) returns (bytes: seq<byte>)
      requires Valid() && !p.Null? && take <= n <= |Buffered()|
      requires p.Copy? ==> p.index + n <= buffer.Length
      requires p.Client? ==> p.offset + n <= |block|
      requires Window(p, n) == Buffered()[..n]
      modifies this`next, this`avail, this`clientNext, this`clientAvail
      ensures Valid() && bytes + Buffered() == old(Buffered())
    {
      var window := Fetch(p, n);
      SplitWindow(Buffered(), n, take);
      bytes := window[..take];
      Consume(take);
    }

    /** One peek of at least `min` bytes, followed by consuming at most `want` of those it shows. */
    method Read(min: nat, want: nat) returns (bytes: seq<byte>)
      requires Valid() && min < TWO64
      modifies this, buffer
      ensures Valid() && (buffer == old(buffer) || fresh(buffer))
      ensures old(readCalls) <= readCalls
      ensures bytes + Buffered() == old(Buffered()) + Input(source, old(readCalls), readCalls)
    {
      hide Input;
      var p, n := Ahead(min);
      if p.Null? {
        return [];
      }
      bytes := TakeFront(p, n, Min(n, want));
    }
  }

  lemma Handover(out: seq<byte>, before: seq<byte>, bytes: seq<byte>, rest: seq<byte>, more: seq<byte>)
    requires bytes + rest == before + more
    ensures (out + bytes) + rest == (out + before) + more
  {
    assert (out + bytes) + rest == out + (bytes + rest);
    assert (out + before) + more == out + (before + more);
  }

  /** A reader that peeks and consumes at will, whatever the sizes, is handed exactly the bytes
      of the source, in order and once each. */
  method ReadThrough(f: Filter, requests: seq<(nat, nat)>) returns (out: seq<byte>)
    requires f.Valid() && f.Buffered() == [] && f.readCalls == 0
    requires forall r :: r in requests ==> r.0 < TWO64
    modifies f, f.buffer
    ensures f.Valid()
    ensures out + f.Buffered() == Input(f.source, 0, f.readCalls)
  {
    out := [];
    for i := 0 to |requests|
      invariant f.Valid() && (f.buffer == old(f.buffer) || fresh(f.buffer))
      invariant out + f.Buffered() == Input(f.source, 0, f.readCalls)
    {
      ghost var before, from := f.Buffered(), f.readCalls;
      var bytes := f.Read(requests[i].0, requests[i].1);
      InputSplits(f.source, 0, from, f.readCalls);
      Handover(out, before, bytes, f.Buffered(), Input(f.source, from, f.readCalls));
      out := out + bytes;
    }
  }
}
