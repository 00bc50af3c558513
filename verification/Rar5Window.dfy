/** The RAR5 decompressor's circular window: decoding into it, and delivering out of it. */
module Rar5Window {
  import opened Bytes
  import opened Modular

  const INT_MAX := 0x7fff_ffff

  // ---------- the history and the window that refines it ----------

  /** Byte `k` of the output history, which is preceded by zeros without end. */
  function At(h: seq<byte>, k: int): byte {
    if 0 <= k < |h| then h[k] else 0
  }

  /** Slot `k & mask` of the window holds byte `k`, for each of the last |w| positions. */
  ghost predicate Refines(w: seq<byte>, h: seq<byte>) {
    |w| > 0 && forall k {:trigger At(h, k)} :: |h| - |w| <= k < |h| ==> w[k % |w|] == At(h, k)
  }

  lemma RefinesWrite(w: seq<byte>, h: seq<byte>, b: byte)
    requires Refines(w, h)
    ensures Refines(w[|h| % |w| := b], h + [b])
  {
    var w', h' := w[|h| % |w| := b], h + [b];
    forall k {:trigger At(h', k)} | |h'| - |w'| <= k < |h'|
      ensures w'[k % |w'|] == At(h', k)
    {
      if k < |h| {
        ModDistinct(k, |h|, |w|);
        assert At(h', k) == At(h, k);
      }
    }
  }

  /** Any distance at all reads the byte at an effective distance between 1 and |w|. */
  function Effective(dist: int, w: nat): (d: nat)
    requires w > 0
    ensures 1 <= d <= w
    ensures 1 <= dist <= w ==> d == dist
  {
    if 1 <= dist <= w then dist else (dist - 1) % w + 1
  }

  lemma RefinesRead(w: seq<byte>, h: seq<byte>, dist: int)
    requires Refines(w, h)
    ensures w[(|h| - dist) % |w|] == At(h, |h| - Effective(dist, |w|))
  {
    var d := Effective(dist, |w|);
    var q := if 1 <= dist <= |w| then 0 else (dist - 1) / |w|;
    assert |h| - d == (|h| - dist) + q * |w|;
    ModShift(|h| - dist, q, |w|);
  }

  /** An LZ77 match: `len` times, append the byte `dist` back. */
  ghost function Copied(h: seq<byte>, dist: nat, len: nat): (r: seq<byte>)
    ensures |r| == |h| + len
    decreases len
  {
    if len == 0 then h else Copied(h + [At(h, |h| - dist)], dist, len - 1)
  }

  lemma {:induction false} CopiedOneMore(h: seq<byte>, dist: nat, len: nat)
    ensures Copied(h, dist, len + 1) == Copied(h, dist, len) + [At(Copied(h, dist, len), |h| + len - dist)]
    decreases len
  {
    if len > 0 {
      CopiedOneMore(h + [At(h, |h| - dist)], dist, len - 1);
    }
  }

  lemma {:induction false} CopyKeeps(h: seq<byte>, dist: nat, len: nat)
    ensures h <= Copied(h, dist, len)
    decreases len
  {
    if len > 0 {
      CopyKeeps(h + [At(h, |h| - dist)], dist, len - 1);
    }
  }

  lemma {:induction false} CopyExtends(h: seq<byte>, dist: nat, len: nat, more: nat)
    requires len <= more
    ensures Copied(h, dist, len) <= Copied(h, dist, more)
    decreases more
  {
    if len < more {
      CopyExtends(h, dist, len, more - 1);
      CopiedOneMore(h, dist, more - 1);
    }
  }

  /** Each byte of a match is the byte `dist` before it, be that before the match or inside it. */
  lemma {:induction false} CopyByte(h: seq<byte>, dist: nat, len: nat, i: nat)
    requires dist >= 1 && i < len
    ensures Copied(h, dist, len)[|h| + i] == At(Copied(h, dist, len), |h| + i - dist)
  {
    CopiedOneMore(h, dist, i);
    CopyExtends(h, dist, i + 1, len);
    CopyExtends(h, dist, i, len);
    assert Copied(h, dist, len)[|h| + i] == Copied(h, dist, i + 1)[|h| + i];
  }

  /** So a match keeps what is before it and repeats the last `dist` bytes of that over and over. */
  lemma {:induction false} CopyRepeats(h: seq<byte>, dist: nat, len: nat, i: nat)
    requires dist >= 1 && i < len
    ensures h <= Copied(h, dist, len)
    ensures Copied(h, dist, len)[|h| + i] == At(h, |h| - dist + i % dist)
    decreases i
  {
    CopyKeeps(h, dist, len);
    CopyByte(h, dist, len, i);
    if i < dist {
      ModUnique(i, 0, i, dist);
    } else {
      CopyRepeats(h, dist, len, i - dist);
      ModShift(i - dist, 1, dist);
    }
  }

  /** A distance is honoured on every window and history exactly when it is from 1 to the window size. */
  lemma DistanceHonoured(dist: int, w: nat)
    requires w > 0
    ensures 1 <= dist <= w <==>
            forall win: seq<byte>, h: seq<byte> :: |win| == w && Refines(win, h) ==>
              win[(|h| - dist) % w] == At(h, |h| - dist)
  {
    if 1 <= dist <= w {
      forall win: seq<byte>, h: seq<byte> | |win| == w && Refines(win, h)
        ensures win[(|h| - dist) % w] == At(h, |h| - dist)
      {
        RefinesRead(win, h, dist);
      }
    } else {
      var win, h := Telltale(dist, w);
      assert |win| == w && Refines(win, h) && win[(|h| - dist) % w] != At(h, |h| - dist);
    }
  }

  /** For a distance out of range, a run of ones after (or of zeros before) a marked byte tells. */
  lemma Telltale(dist: int, w: nat) returns (win: seq<byte>, h: seq<byte>)
    requires w > 0 && !(1 <= dist <= w)
    ensures |win| == w && Refines(win, h) && win[(|h| - dist) % w] != At(h, |h| - dist)
  {
    h := seq(w, _ => 1);
    win := seq(w, _ => 1);
    forall k {:trigger At(h, k)} | 0 <= k < w
      ensures win[k % w] == At(h, k)
    {
    }
    RefinesRead(win, h, dist);
  }

  /** Taking back the last byte leaves the window refined only if the byte written over happens to be the one
      written. */
  lemma RewindExactly(w: seq<byte>, h: seq<byte>)
    requires Refines(w, h) && h != []
    ensures Refines(w, h[..|h| - 1]) <==> At(h, |h| - 1) == At(h, |h| - 1 - |w|)
  {
    var last, h' := |h| - 1, h[..|h| - 1];
    ModShift(last - |w|, 1, |w|);
    assert w[last % |w|] == At(h, last);
    assert At(h', last - |w|) == At(h, last - |w|);
    if At(h, last) == At(h, last - |w|) {
      forall k {:trigger At(h', k)} | |h'| - |w| <= k < |h'|
        ensures w[k % |w|] == At(h', k)
      {
        assert At(h', k) == At(h, k);
      }
    }
  }

  // ---------- symbols ----------

  type CacheIndex = i: nat | i < 4
  type Cache = c: seq<int> | |c| == 4 witness [0, 0, 0, 0]

  /** One turn of the decoder as its helpers report it: `len` is -1 when decode_code_length fails, and a broken repeat
      is one whose length slot could not be decoded. */
  datatype Symbol =
    | Literal(num: byte)
    | NewFilter(start: nat)
    | RepeatLast
    | RepeatDistance(idx: CacheIndex, len: int)
    | BrokenRepeat(idx: CacheIndex)
    | Match(len: int, slot: nat, high: nat, low: nat)
    | Broken(code: int)

  function ToInt32(x: int): int {
    var r := x % TWO32;
    if r >= 0x8000_0000 then r - TWO32 else r
  }

  function DistanceBits(slot: nat): nat {
    if slot < 4 then 0 else slot / 2 - 1
  }

  /** The smallest distance of a slot. */
  function SlotBase(slot: nat): nat {
    1 + if slot < 4 then slot else (2 + slot % 2) * Pow2(DistanceBits(slot))
  }

  /** The extra bits of a match fit their slot: of four or more, the low four are coded apart. */
  predicate ValidMatch(slot: nat, high: nat, low: nat) {
    var dbits := DistanceBits(slot);
    && slot < 64
    && (dbits == 0 ==> high == 0 && low == 0)
    && (1 <= dbits < 4 ==> high < Pow2(dbits) && low == 0)
    && (dbits >= 4 ==> high < Pow2(dbits - 4) && low < 16)
  }

  function Extra(slot: nat, high: nat, low: nat): nat {
    if DistanceBits(slot) >= 4 then 16 * high + low else high
  }

  datatype Distance = Overflow | Dist(value: int)

  /** The distance the decoder computes, in C's 32-bit int. */
  function DecodeDistance(slot: nat, high: nat, low: nat): Distance {
    DecodeFrom(SlotBase(slot), DistanceBits(slot), high, low)
  }

  function DecodeFrom(base: nat, dbits: nat, high: nat, low: nat): Distance {
    var dist := ToInt32(base);
    if dbits >= 4 then
      var sum := ToInt32(dist + 16 * high);
      if sum >= INT_MAX - low - 1 then Overflow else Dist(sum + low)
    else
      Dist(dist + high)
  }

  /** How much longer a match is made for being far away. */
  function Bump(len: int, dist: int): int {
    len + (if dist > 0x100 then 1 else 0) + (if dist > 0x2000 then 1 else 0) + (if dist > 0x40000 then 1 else 0)
  }

  /** The slots tile the distances: each begins where the one before ends. */
  lemma SlotsTile(slot: nat)
    ensures SlotBase(slot + 1) == SlotBase(slot) + Pow2(DistanceBits(slot))
  {
    if slot >= 4 && slot % 2 == 1 {
      assert DistanceBits(slot + 1) == DistanceBits(slot) + 1;
      assert Pow2(DistanceBits(slot + 1)) == 2 * Pow2(DistanceBits(slot));
    } else if slot >= 4 {
      assert DistanceBits(slot + 1) == DistanceBits(slot);
    }
  }

  lemma {:induction false} BasesGrow(slot: nat, other: nat)
    requires slot < other
    ensures SlotBase(slot) + Pow2(DistanceBits(slot)) <= SlotBase(other)
    decreases other
  {
    SlotsTile(slot);
    if slot + 1 < other {
      BasesGrow(slot, other - 1);
      SlotsTile(other - 1);
    }
  }

  lemma Pow2Values()
    ensures Pow2(4) == 16 && Pow2(29) == 0x2000_0000 && Pow2(30) == 0x4000_0000
  {
    assert Pow2(5) == 32 && Pow2(10) == 1024 && Pow2(15) == 32768 && Pow2(20) == 1048576 && Pow2(25) == 33554432;
  }

  lemma {:induction false} Pow2Grows(m: nat, n: nat)
    requires m <= n
    ensures Pow2(m) <= Pow2(n)
  {
    if m < n {
      Pow2Grows(m, n - 1);
    }
  }

  lemma ExtraBound(slot: nat, high: nat, low: nat)
    requires ValidMatch(slot, high, low)
    ensures Extra(slot, high, low) < Pow2(DistanceBits(slot))
    ensures DistanceBits(slot) >= 4 ==> 16 * high + 16 <= Pow2(DistanceBits(slot))
  {
    var dbits := DistanceBits(slot);
    if dbits >= 4 {
      SixteenTimes(dbits - 4);
    }
  }

  lemma SixteenTimes(n: nat)
    ensures Pow2(n + 4) == 16 * Pow2(n)
  {
    assert Pow2(n + 4) == 2 * Pow2(n + 3) && Pow2(n + 3) == 2 * Pow2(n + 2);
    assert Pow2(n + 2) == 2 * Pow2(n + 1);
  }

  /** Two valid codes of the same distance are the same code. */
  lemma CodesAreUnique(slot: nat, high: nat, low: nat, slot': nat, high': nat, low': nat)
    requires ValidMatch(slot, high, low) && ValidMatch(slot', high', low')
    requires SlotBase(slot) + Extra(slot, high, low) == SlotBase(slot') + Extra(slot', high', low')
    ensures slot == slot' && high == high' && low == low'
  {
    ExtraBound(slot, high, low);
    ExtraBound(slot', high', low');
    if slot < slot' {
      BasesGrow(slot, slot');
    } else if slot' < slot {
      BasesGrow(slot', slot);
    }
  }

  lemma BaseBound(slot: nat)
    requires slot < 64
    ensures slot < 62 ==> SlotBase(slot) + Pow2(DistanceBits(slot)) <= 0x8000_0001
    ensures slot >= 62 ==> DistanceBits(slot) == 30 && 0x8000_0001 <= SlotBase(slot) <= 0xC000_0001
    ensures Pow2(DistanceBits(slot)) <= 0x4000_0000
    ensures DistanceBits(slot) < 4 ==> SlotBase(slot) + Pow2(DistanceBits(slot)) <= 33
  {
    Pow2Values();
    if slot < 10 {
      BasesGrow(slot, 10);
    }
    if slot >= 62 {
      assert DistanceBits(slot) == 30;
    } else {
      Pow2Grows(DistanceBits(slot), 29);
      BasesGrow(slot, 62);
      assert SlotBase(62) == 1 + 2 * 0x4000_0000;
    }
  }

  /** The decoder computes the coded distance exactly when it is small enough; just above, it reports
      an overflow, and past the range of int (slots 62 and 63) it yields a negative number unseen. */
  lemma DistanceExactly(slot: nat, high: nat, low: nat)
    requires ValidMatch(slot, high, low)
    ensures var d := SlotBase(slot) + Extra(slot, high, low);
            DecodeDistance(slot, high, low) ==
            if slot >= 62 then Dist(d - 0x1_0000_0000)
            else if DistanceBits(slot) >= 4 && d >= 0x7fff_fffe then Overflow
            else Dist(d)
  {
    ExtraBound(slot, high, low);
    BaseBound(slot);
    DecodedFrom(SlotBase(slot), DistanceBits(slot), high, low, slot >= 62);
  }

  lemma ToInt32Values(x: int)
    ensures -0x8000_0000 <= x < 0x8000_0000 ==> ToInt32(x) == x
    ensures 0x8000_0000 <= x < TWO32 ==> ToInt32(x) == x - TWO32
  {
  }

  lemma DecodedFrom(base: nat, dbits: nat, high: nat, low: nat, far: bool)
    requires if dbits < 4 then !far && base + high <= 33
             else base + 16 * high <= (if far then 0xFFFF_FFF1 else 0x7FFF_FFF1)
    requires (far ==> base >= 0x8000_0001) && low < 16
    ensures var d := base + if dbits >= 4 then 16 * high + low else high;
            DecodeFrom(base, dbits, high, low) ==
            if far then Dist(d - 0x1_0000_0000) else if dbits >= 4 && d >= 0x7fff_fffe then Overflow else Dist(d)
  {
    hide ToInt32;
    ToInt32Values(base);
    if dbits >= 4 {
      ToInt32Values(ToInt32(base) + 16 * high);
    }
  }

  // ---------- the decoder's state, as the symbols change it ----------

  datatype Lz = Lz(history: seq<byte>, lastLen: int, cache: Cache)

  /** Put a distance in front of the last four. */
  function CachePush(cache: Cache, dist: int): Cache {
    [dist] + cache[..3]
  }

  /** Move one of the last four distances to the front. */
  function CacheTouch(cache: Cache, idx: CacheIndex): Cache {
    [cache[idx]] + cache[..idx] + cache[idx + 1..]
  }

  lemma TouchPermutes(cache: Cache, idx: CacheIndex)
    ensures CacheTouch(cache, idx)[0] == cache[idx] && multiset(CacheTouch(cache, idx)) == multiset(cache)
  {
    assert cache == cache[..idx] + [cache[idx]] + cache[idx + 1..];
  }

  /** The helpers' results are in range; -1 is a length that could not be decoded. */
  predicate Reported(sym: Symbol, maxLen: nat) {
    match sym
    case Match(len, slot, high, low) => -1 <= len <= maxLen - 3 && ValidMatch(slot, high, low)
    case RepeatDistance(idx, len) => -1 <= len <= maxLen
    case Broken(code) => code == ARCHIVE_EOF || code == ARCHIVE_FATAL
    case _ => true
  }

  /** A repeat whose length could not be decoded, which the decoder does not look at. */
  predicate FailedRepeat(sym: Symbol) {
    sym.RepeatDistance? && sym.len == -1
  }

  predicate Decodable(sym: Symbol, maxLen: nat) {
    Reported(sym, maxLen) && !FailedRepeat(sym)
  }

  ghost predicate AllDecodable(symbols: seq<Symbol>, maxLen: nat) {
    forall i {:trigger symbols[i]} :: 0 <= i < |symbols| ==> Decodable(symbols[i], maxLen)
  }

  /** No filter is defined, and nothing stops decoding. */
  ghost predicate Plain(symbols: seq<Symbol>) {
    forall i {:trigger symbols[i]} :: 0 <= i < |symbols| ==> !symbols[i].NewFilter? && CodeOf(symbols[i]) == ARCHIVE_OK
  }

  ghost predicate AllPlain(blocks: seq<seq<Symbol>>) {
    forall i {:trigger blocks[i]} :: 0 <= i < |blocks| ==> Plain(blocks[i])
  }

  /** The return code a symbol leads to. */
  function CodeOf(sym: Symbol): int {
    match sym
    case Match(len, slot, high, low) =>
      if len == -1 || DecodeDistance(slot, high, low).Overflow? then ARCHIVE_FATAL else ARCHIVE_OK
    case BrokenRepeat(_) => ARCHIVE_FATAL
    case Broken(code) => code
    case _ => ARCHIVE_OK
  }

  /** A copy of `len` bytes; a negative length takes bytes back. */
  ghost function CopiedBy(h: seq<byte>, dist: nat, len: int): seq<byte> {
    if len >= 0 then Copied(h, dist, len) else h[..Max(0, |h| + len)]
  }

  /** What one symbol does, on a window of size `w`. */
  ghost function Decode(st: Lz, sym: Symbol, w: nat): Lz
    requires w > 0
  {
    match sym
    case Literal(num) => st.(history := st.history + [num])
    case Match(len, slot, high, low) =>
      if CodeOf(sym) != ARCHIVE_OK then st
      else
        var dist := DecodeDistance(slot, high, low).value;
        Lz(CopiedBy(st.history, Effective(dist, w), Bump(len, dist)), Bump(len, dist), CachePush(st.cache, dist))
    case RepeatLast => st.(history := CopiedBy(st.history, Effective(st.cache[0], w), st.lastLen))
    case RepeatDistance(idx, len) =>
      Lz(CopiedBy(st.history, Effective(st.cache[idx], w), len), len, CacheTouch(st.cache, idx))
    case BrokenRepeat(idx) => st.(cache := CacheTouch(st.cache, idx))
    case _ => st
  }

  /** A failed repeat, in any state with a byte to take back. */
  lemma FailedRepeatExactly(win: seq<byte>, st: Lz, idx: CacheIndex)
    requires Refines(win, st.history) && st.history != []
    ensures var h := st.history;
            && Decode(st, RepeatDistance(idx, -1), |win|).history == h[..|h| - 1]
            && (Refines(win, h[..|h| - 1]) <==> At(h, |h| - 1) == At(h, |h| - 1 - |win|))
  {
    RewindExactly(win, st.history);
  }

  /** Right after a literal, on a fresh window: the slot of the byte taken back still holds it. */
  lemma FailedRepeatBreaks(win: seq<byte>, b: byte)
    requires b != 0 && |win| > 0 && Refines(win, [b])
    ensures Run(Fresh(0), [Literal(b)], |win|).history == [b]
    ensures Run(Fresh(0), [Literal(b), RepeatDistance(0, -1)], |win|).history == [] && !Refines(win, [])
  {
    hide Run, Refines;
    TwoSymbols(Fresh(0), Literal(b), RepeatDistance(0, -1), |win|);
    assert Fresh(0).history + [b] == [b] && [b][..0] == [];
    TakingBackBreaks(win, b);
  }

  lemma TakingBackBreaks(win: seq<byte>, b: byte)
    requires b != 0 && Refines(win, [b])
    ensures !Refines(win, [])
  {
    RewindExactly(win, [b]);
    assert [b][..0] == [];
  }

  lemma TwoSymbols(st: Lz, first: Symbol, second: Symbol, w: nat)
    requires w > 0
    ensures Run(st, [first], w) == Decode(st, first, w)
    ensures Run(st, [first, second], w) == Decode(Decode(st, first, w), second, w)
  {
    var one, two := [first], [first, second];
    assert one[..0] == [] && two[..1] == one;
  }

  /** What a run of symbols does. */
  ghost function Run(st: Lz, symbols: seq<Symbol>, w: nat): Lz
    requires w > 0
  {
    if symbols == [] then st
    else Decode(Run(st, symbols[..|symbols| - 1], w), symbols[|symbols| - 1], w)
  }

  lemma RunStep(st: Lz, symbols: seq<Symbol>, sym: Symbol, w: nat)
    requires w > 0
    ensures Run(st, symbols + [sym], w) == Decode(Run(st, symbols, w), sym, w)
  {
    assert (symbols + [sym])[..|symbols|] == symbols;
  }

  // ---------- what the symbols mean, without the decoder's own functions ----------

  /** How much longer than its code a match at some distance is. */
  predicate Lengthened(len: int, coded: int, dist: int) {
    && (dist <= 0x100 ==> len == coded) && (0x100 < dist <= 0x2000 ==> len == coded + 1)
    && (0x2000 < dist <= 0x40000 ==> len == coded + 2) && (0x40000 < dist ==> len == coded + 3)
  }

  /** One of the last four distances has moved to the front, and those before it one place back. */
  predicate Touched(cache: Cache, before: Cache, idx: CacheIndex) {
    && cache[0] == before[idx]
    && (forall k :: 0 < k <= idx ==> cache[k] == before[k - 1])
    && (forall k :: idx < k < 4 ==> cache[k] == before[k])
  }

  /** What every symbol changes, and what it leaves. */
  lemma SymbolMeans(st: Lz, sym: Symbol, w: nat)
    requires w > 0
    ensures var next := Decode(st, sym, w);
            match sym
            case Literal(num) => next == Lz(st.history + [num], st.lastLen, st.cache)
            case Match(len, slot, high, low) =>
              if len == -1 || DecodeDistance(slot, high, low).Overflow? then next == st
              else
                var dist := DecodeDistance(slot, high, low).value;
                && Lengthened(next.lastLen, len, dist)
                && next.history == CopiedBy(st.history, Effective(dist, w), next.lastLen)
                && next.cache == [dist, st.cache[0], st.cache[1], st.cache[2]]
            case RepeatLast =>
              next == Lz(CopiedBy(st.history, Effective(st.cache[0], w), st.lastLen), st.lastLen, st.cache)
            case RepeatDistance(idx, len) =>
              && next.history == CopiedBy(st.history, Effective(st.cache[idx], w), len)
              && next.lastLen == len && Touched(next.cache, st.cache, idx)
            case BrokenRepeat(idx) =>
              next.history == st.history && next.lastLen == st.lastLen && Touched(next.cache, st.cache, idx)
            case _ => next == st
  {
    hide Copied, DecodeDistance;
  }

  /** Which symbols stop decoding, and with what code. */
  lemma CodeMeans(sym: Symbol)
    ensures CodeOf(sym) ==
            match sym
            case Match(len, slot, high, low) =>
              if len == -1 || DecodeDistance(slot, high, low).Overflow? then -30 else 0
            case BrokenRepeat(_) => -30
            case Broken(code) => code
            case _ => 0
  {
    hide DecodeDistance;
  }

  // Coding a distance: the two highest bits of one less than it choose the slot, and the others follow.

  /** The place of the highest bit. */
  function TopBit(x: nat): (b: nat)
    requires x > 0
    ensures Pow2(b) <= x < Pow2(b + 1)
  {
    if x == 1 then 0 else 1 + TopBit(x / 2)
  }

  /** A copy at a distance from 1 to below 2^31 - 2, as a match. */
  function CodeCopy(len: nat, dist: nat): Symbol
    requires dist >= 1
  {
    var coded: int := len -
      (if dist <= 0x100 then 0 else if dist <= 0x2000 then 1 else if dist <= 0x40000 then 2 else 3);
    if dist <= 4 then Match(coded, dist - 1, 0, 0)
    else
      var b := TopBit(dist - 1);
      SlotOfBits(b, dist - 1);
      var extra := (dist - 1) % Pow2(b - 1);
      var slot := 2 * b + (dist - 1) / Pow2(b - 1) % 2;
      if b - 1 >= 4 then Match(coded, slot, extra / 16, extra % 16) else Match(coded, slot, extra, 0)
  }

  lemma SlotOfBits(b: nat, x: nat)
    requires x >= 4 && Pow2(b) <= x < Pow2(b + 1)
    ensures b >= 2
  {
    assert Pow2(1) == 2 && Pow2(2) == 4;
  }

  /** The number made of two high bits and the rest. */
  lemma HighBits(x: nat, b: nat)
    requires b >= 1 && Pow2(b) <= x < Pow2(b + 1)
    ensures var p := Pow2(b - 1); x == (2 + x / p % 2) * p + x % p && x % p < p && x / p == 2 + x / p % 2
  {
    var p := Pow2(b - 1);
    assert Pow2(b) == 2 * p && Pow2(b + 1) == 4 * p;
    QuotientTwoOrThree(x, p);
  }

  lemma QuotientTwoOrThree(x: nat, p: nat)
    requires p > 0 && 2 * p <= x < 4 * p
    ensures x / p == 2 || x / p == 3
    ensures x == (x / p) * p + x % p && x % p < p
  {
    if x < 3 * p {
      ModUnique(x, 2, x - 2 * p, p);
    } else {
      ModUnique(x, 3, x - 3 * p, p);
    }
  }

  /** The code of a distance is valid and decodes to it. */
  lemma DistanceComesBack(dist: nat, len: nat)
    requires 1 <= dist < 0x7fff_fffe
    ensures var sym := CodeCopy(len, dist);
            && ValidMatch(sym.slot, sym.high, sym.low)
            && DecodeDistance(sym.slot, sym.high, sym.low) == Dist(dist)
  {
    hide DecodeDistance, Pow2;
    var sym := CodeCopy(len, dist);
    if dist > 4 {
      var x, b := dist - 1, TopBit(dist - 1);
      SlotOfBits(b, x);
      HighBits(x, b);
      CodedSlot(x, b);
    } else {
      SmallPowers();
    }
    DistanceExactly(sym.slot, sym.high, sym.low);
  }

  lemma SmallPowers()
    ensures Pow2(0) == 1
  {
  }

  lemma CodedSlot(x: nat, b: nat)
    requires 2 <= b && 4 <= x < 0x7fff_fffd && Pow2(b) <= x < Pow2(b + 1)
    requires x == (2 + x / Pow2(b - 1) % 2) * Pow2(b - 1) + x % Pow2(b - 1) && x % Pow2(b - 1) < Pow2(b - 1)
    ensures var slot, extra := 2 * b + x / Pow2(b - 1) % 2, x % Pow2(b - 1);
            && b <= 30 && slot < 62 && DistanceBits(slot) == b - 1 && SlotBase(slot) + extra == x + 1
            && (b - 1 >= 4 ==> extra / 16 < Pow2(b - 5))
  {
    var slot, extra := 2 * b + x / Pow2(b - 1) % 2, x % Pow2(b - 1);
    Pow2Values();
    assert Pow2(31) == 2 * Pow2(30);
    if b > 30 {
      Pow2Grows(31, b);
    }
    if b - 1 >= 4 {
      SixteenTimes(b - 5);
      SixteenthFits(extra, Pow2(b - 5));
    }
  }

  lemma SixteenthFits(x: nat, p: nat)
    requires x < 16 * p
    ensures x / 16 < p
  {
  }

  /** A byte, or a copy of some bytes from some distance back. */
  datatype Item = Byte(b: byte) | Copy(len: nat, dist: nat)

  ghost function Meant(h: seq<byte>, items: seq<Item>): seq<byte>
    decreases |items|
  {
    if items == [] then h
    else
      var front, last := Meant(h, items[..|items| - 1]), items[|items| - 1];
      match last
      case Byte(b) => front + [b]
      case Copy(len, dist) => Copied(front, dist, len)
  }

  /** Far copies have a least length. */
  predicate LongEnough(len: nat, dist: nat) {
    (0x100 < dist ==> len >= 1) && (0x2000 < dist ==> len >= 2) && (0x40000 < dist ==> len >= 3)
  }

  /** Copies that an encoder may use: from inside the window, and neither too long nor too short for a match. */
  predicate Codable(items: seq<Item>, w: nat, maxLen: nat) {
    forall i {:trigger items[i]} :: 0 <= i < |items| && items[i].Copy? ==>
      && 1 <= items[i].dist <= w && items[i].dist < 0x7fff_fffe
      && LongEnough(items[i].len, items[i].dist) && items[i].len <= maxLen - 3
  }

  function CodeItem(item: Item): Symbol
    requires item.Copy? ==> item.dist >= 1
  {
    match item
    case Byte(b) => Literal(b)
    case Copy(len, dist) => CodeCopy(len, dist)
  }

  function CodeItems(items: seq<Item>): (symbols: seq<Symbol>)
    requires forall i {:trigger items[i]} :: 0 <= i < |items| && items[i].Copy? ==> items[i].dist >= 1
    ensures |symbols| == |items|
    ensures forall i {:trigger symbols[i]} :: 0 <= i < |items| ==> symbols[i] == CodeItem(items[i])
  {
    if items == [] then [] else CodeItems(items[..|items| - 1]) + [CodeItem(items[|items| - 1])]
  }

  /** A copy decodes to exactly that many bytes from exactly that distance, which is then the latest of the last
      four. */
  lemma CopyComesBack(st: Lz, len: nat, dist: nat, w: nat)
    requires 1 <= dist <= w && dist < 0x7fff_fffe && LongEnough(len, dist)
    ensures var sym := CodeCopy(len, dist);
            && CodeOf(sym) == ARCHIVE_OK && 0 <= sym.len <= len
            && Decode(st, sym, w) ==
               Lz(Copied(st.history, dist, len), len, [dist, st.cache[0], st.cache[1], st.cache[2]])
  {
    hide DecodeDistance, Decode, ValidMatch, Copied, TopBit;
    DistanceComesBack(dist, len);
    CodeMeans(CodeCopy(len, dist));
    SymbolMeans(st, CodeCopy(len, dist), w);
  }

  /** So whatever is coded that way decodes to what was meant, from any state. */
  lemma {:induction false} ItemsComeBack(st: Lz, items: seq<Item>, w: nat, maxLen: nat)
    requires w > 0 && Codable(items, w, maxLen)
    ensures Run(st, CodeItems(items), w).history == Meant(st.history, items)
    decreases |items|
  {
    hide Decode, CodeCopy, Copied;
    if items != [] {
      var front, last := items[..|items| - 1], items[|items| - 1];
      ItemsComeBack(st, front, w, maxLen);
      RunStep(st, CodeItems(front), CodeItem(last), w);
      var before := Run(st, CodeItems(front), w);
      if last.Copy? {
        CopyComesBack(before, last.len, last.dist, w);
      } else {
        SymbolMeans(before, CodeItem(last), w);
      }
    }
  }

  lemma CodesArePlain(items: seq<Item>, w: nat, maxLen: nat)
    requires Codable(items, w, maxLen)
    ensures Plain(CodeItems(items)) && AllDecodable(CodeItems(items), maxLen)
  {
    hide CodeCopy, DecodeDistance, ValidMatch;
    var symbols := CodeItems(items);
    forall i {:trigger symbols[i]} | 0 <= i < |symbols|
      ensures !symbols[i].NewFilter? && CodeOf(symbols[i]) == ARCHIVE_OK && Decodable(symbols[i], maxLen)
    {
      if items[i].Copy? {
        CopyIsDecodable(items[i].len, items[i].dist, w, maxLen);
      }
    }
  }

  lemma CopyIsDecodable(len: nat, dist: nat, w: nat, maxLen: nat)
    requires 1 <= dist <= w && dist < 0x7fff_fffe && LongEnough(len, dist) && len <= maxLen - 3
    ensures var sym := CodeCopy(len, dist); sym.Match? && CodeOf(sym) == ARCHIVE_OK && Decodable(sym, maxLen)
  {
    CopyComesBack(Fresh(0), len, dist, w);
    DistanceComesBack(dist, len);
  }

  // The last four distances, by when each was last used.

  /** The symbols that use a distance and put it in front: matches that are decoded, and repeats. */
  predicate Uses(sym: Symbol) {
    sym.RepeatDistance? || sym.BrokenRepeat?
    || (sym.Match? && sym.len != -1 && DecodeDistance(sym.slot, sym.high, sym.low).Dist?)
  }

  function UsedDistance(cache: Cache, sym: Symbol): int
    requires Uses(sym)
  {
    match sym
    case Match(_, slot, high, low) => DecodeDistance(slot, high, low).value
    case RepeatDistance(idx, _) => cache[idx]
    case BrokenRepeat(idx) => cache[idx]
  }

  /** When each of the last four distances was last used, by the number of the symbol; negative for never. */
  ghost function Times(symbols: seq<Symbol>): (t: seq<int>)
    ensures |t| == 4
    decreases |symbols|
  {
    if symbols == [] then [-1, -2, -3, -4]
    else
      var n := |symbols| - 1;
      var t, sym := Times(symbols[..n]), symbols[n];
      if !Uses(sym) then t
      else if sym.Match? then [n, t[0], t[1], t[2]]
      else [n] + t[..sym.idx] + t[sym.idx + 1..]
  }

  /** The distance that symbol `j` used is one of the last four, or older than all of them, or was used again. */
  ghost predicate Remembered(symbols: seq<Symbol>, j: nat) {
    j in Times(symbols) || j < Times(symbols)[3]
    || exists again :: UsesAgain(symbols, j, again)
  }

  ghost predicate UsesAgain(symbols: seq<Symbol>, j: nat, again: nat) {
    && j < again < |symbols| && (symbols[again].RepeatDistance? || symbols[again].BrokenRepeat?)
    && Times(symbols[..again])[symbols[again].idx] == j
  }

  /** Cache entry `k` is the distance used at time `t[k]`; an entry never used is 0. */
  ghost predicate CachedAt(solidOffset: nat, symbols: seq<Symbol>, w: nat, k: nat)
    requires w > 0 && k < 4
  {
    var t, cache := Times(symbols)[k], Run(Fresh(solidOffset), symbols, w).cache;
    if t < 0 then cache[k] == 0
    else
      && t < |symbols| && Uses(symbols[t])
      && cache[k] == UsedDistance(Run(Fresh(solidOffset), symbols[..t], w).cache, symbols[t])
  }

  lemma TimesStep(symbols: seq<Symbol>)
    requires symbols != []
    ensures var n := |symbols| - 1;
            var t, sym := Times(symbols[..n]), symbols[n];
            Times(symbols) ==
            if !Uses(sym) then t
            else if sym.Match? then [n, t[0], t[1], t[2]]
            else [n] + t[..sym.idx] + t[sym.idx + 1..]
  {
  }

  /** An entry that has kept its distance and its time. */
  lemma CarriedOver(solidOffset: nat, symbols: seq<Symbol>, w: nat, k: nat, m: nat)
    requires w > 0 && symbols != [] && k < 4 && m < 4
    requires var n := |symbols| - 1;
             var prev := symbols[..n];
             && CachedAt(solidOffset, prev, w, m) && Times(symbols)[k] == Times(prev)[m] < n
             && Run(Fresh(solidOffset), symbols, w).cache[k] == Run(Fresh(solidOffset), prev, w).cache[m]
    ensures CachedAt(solidOffset, symbols, w, k)
  {
    hide Times, Run, Uses, UsedDistance;
    var n, t := |symbols| - 1, Times(symbols)[k];
    if t >= 0 {
      assert symbols[..n][..t] == symbols[..t] && symbols[..n][t] == symbols[t];
    }
  }

  lemma StillCached(solidOffset: nat, symbols: seq<Symbol>, w: nat, k: nat)
    requires w > 0 && symbols != [] && k < 4
    requires var n := |symbols| - 1;
             && (var t := Times(symbols[..n]); n > t[0] > t[1] > t[2] > t[3])
             && forall m :: 0 <= m < 4 ==> CachedAt(solidOffset, symbols[..n], w, m)
    ensures CachedAt(solidOffset, symbols, w, k)
  {
    hide Times, Run, DecodeDistance, Decode, CachedAt;
    var n := |symbols| - 1;
    var prev, sym := symbols[..n], symbols[n];
    var st := Run(Fresh(solidOffset), prev, w);
    TimesStep(symbols);
    assert prev + [sym] == symbols;
    RunStep(Fresh(solidOffset), prev, sym, w);
    SymbolMeans(st, sym, w);
    if !Uses(sym) {
      CarriedOver(solidOffset, symbols, w, k, k);
    } else if k == 0 {
      JustUsed(solidOffset, symbols, w);
    } else if sym.Match? || k <= sym.idx {
      CarriedOver(solidOffset, symbols, w, k, k - 1);
    } else {
      CarriedOver(solidOffset, symbols, w, k, k);
    }
  }

  lemma JustUsed(solidOffset: nat, symbols: seq<Symbol>, w: nat)
    requires w > 0 && symbols != []
    requires var n := |symbols| - 1;
             && Uses(symbols[n]) && Times(symbols)[0] == n
             && Run(Fresh(solidOffset), symbols, w).cache[0] ==
                UsedDistance(Run(Fresh(solidOffset), symbols[..n], w).cache, symbols[n])
    ensures CachedAt(solidOffset, symbols, w, 0)
  {
    hide Times, Run, Uses, UsedDistance;
  }

  lemma StillRemembered(symbols: seq<Symbol>, j: nat)
    requires symbols != [] && j < |symbols| && Uses(symbols[j])
    requires var n := |symbols| - 1;
             && (var t := Times(symbols[..n]); n > t[0] > t[1] > t[2] > t[3])
             && (j < n ==> Remembered(symbols[..n], j))
    ensures Remembered(symbols, j)
  {
    hide Times, DecodeDistance;
    var n := |symbols| - 1;
    var prev, sym := symbols[..n], symbols[n];
    var t, t' := Times(prev), Times(symbols);
    TimesStep(symbols);
    if j == n {
      assert t'[0] == j;
    } else if again: nat :| UsesAgain(prev, j, again) {
      assert prev[..again] == symbols[..again];
      assert UsesAgain(symbols, j, again);
    } else if j in t {
      var m :| 0 <= m < 4 && t[m] == j;
      if !Uses(sym) {
        assert t'[m] == j;
      } else if sym.Match? {
        assert m < 3 ==> t'[m + 1] == j;
      } else if m == sym.idx {
        assert UsesAgain(symbols, j, n);
      } else {
        assert t'[if m < sym.idx then m + 1 else m] == j;
      }
    }
  }

  /** After any run of symbols the cache holds the last four distances used, the most recent first, and no use is
      forgotten but for four more recent ones. */
  lemma {:induction false} RecentFirst(solidOffset: nat, symbols: seq<Symbol>, w: nat)
    requires w > 0
    ensures var t := Times(symbols); |symbols| > t[0] > t[1] > t[2] > t[3]
    ensures forall k :: 0 <= k < 4 ==> CachedAt(solidOffset, symbols, w, k)
    ensures forall j :: 0 <= j < |symbols| && Uses(symbols[j]) ==> Remembered(symbols, j)
    decreases |symbols|
  {
    hide Run, Uses, CachedAt, Remembered;
    if symbols != [] {
      var n := |symbols| - 1;
      RecentFirst(solidOffset, symbols[..n], w);
      LaterFirst(symbols);
      forall k | 0 <= k < 4
        ensures CachedAt(solidOffset, symbols, w, k)
      {
        StillCached(solidOffset, symbols, w, k);
      }
      forall j | 0 <= j < |symbols| && Uses(symbols[j])
        ensures Remembered(symbols, j)
      {
        StillRemembered(symbols, j);
      }
    } else {
      NothingCached(solidOffset, w);
    }
  }

  lemma NothingCached(solidOffset: nat, w: nat)
    requires w > 0
    ensures forall k :: 0 <= k < 4 ==> CachedAt(solidOffset, [], w, k)
  {
  }

  lemma LaterFirst(symbols: seq<Symbol>)
    requires symbols != []
    requires var n := |symbols| - 1; var t := Times(symbols[..n]); n > t[0] > t[1] > t[2] > t[3]
    ensures var t := Times(symbols); |symbols| > t[0] > t[1] > t[2] > t[3]
  {
    hide Times, DecodeDistance;
    TimesStep(symbols);
  }

  /** The symbols of the first `n` blocks, in order. */
  ghost function Joined(blocks: seq<seq<Symbol>>, n: nat): seq<Symbol>
    requires n <= |blocks|
  {
    if n == 0 then [] else Joined(blocks, n - 1) + blocks[n - 1]
  }

  /** The decoder's state before the first symbol. */
  ghost function Fresh(solidOffset: nat): Lz {
    Lz(Zeros(solidOffset), 0, [0, 0, 0, 0])
  }

  /** `symbols` are those of the blocks before the current one and of the current one up to `inAddr`. */
  ghost predicate Progress(symbols: seq<Symbol>, blocks: seq<seq<Symbol>>, nextBlock: nat, block: seq<Symbol>,
                           inAddr: nat, blockFinished: bool)
  {
    && inAddr <= |block| && nextBlock <= |blocks| && (blockFinished ==> inAddr == |block|)
    && (if nextBlock == 0 then block == [] && symbols == []
        else block == blocks[nextBlock - 1] && symbols == Joined(blocks, nextBlock - 1) + block[..inAddr])
  }

  lemma ProgressSymbol(symbols: seq<Symbol>, blocks: seq<seq<Symbol>>, nextBlock: nat, block: seq<Symbol>, inAddr: nat)
    requires Progress(symbols, blocks, nextBlock, block, inAddr, false) && inAddr < |block|
    ensures Progress(symbols + [block[inAddr]], blocks, nextBlock, block, inAddr + 1, false)
  {
    assert block[..inAddr] + [block[inAddr]] == block[..inAddr + 1];
  }

  lemma ProgressBlock(symbols: seq<Symbol>, blocks: seq<seq<Symbol>>, nextBlock: nat, block: seq<Symbol>, inAddr: nat)
    requires Progress(symbols, blocks, nextBlock, block, inAddr, true) && nextBlock < |blocks|
    ensures Progress(symbols, blocks, nextBlock + 1, blocks[nextBlock], 0, false)
  {
    assert block[..inAddr] == block;
    assert symbols + blocks[nextBlock][..0] == symbols;
  }

  lemma AllDecoded(symbols: seq<Symbol>, blocks: seq<seq<Symbol>>, nextBlock: nat, block: seq<Symbol>, inAddr: nat,
                   blockFinished: bool)
    requires Progress(symbols, blocks, nextBlock, block, inAddr, blockFinished)
    ensures blockFinished && nextBlock == |blocks| ==> symbols == Joined(blocks, |blocks|)
  {
    if blockFinished {
      assert block[..inAddr] == block;
    }
  }

  /** For any span, wrapped or not, the fragments have (end - begin) % w bytes in all, which is the span itself exactly
      when it does not run backwards and is shorter than the window. */
  lemma SpanWraps(begin: int, end: int, w: nat)
    requires w > 0
    ensures begin % w > end % w ==> (w - begin % w) + end % w == (end - begin) % w
    ensures begin % w <= end % w ==> end % w - begin % w == (end - begin) % w
    ensures (end - begin) % w == end - begin <==> 0 <= end - begin < w
  {
    var q := end / w - begin / w;
    SplitDifference(begin, end, w);
    if begin % w > end % w {
      assert end - begin == (q - 1) * w + (w - begin % w + end % w);
      ModUnique(end - begin, q - 1, w - begin % w + end % w, w);
    } else {
      ModUnique(end - begin, q, end % w - begin % w, w);
    }
    if 0 <= end - begin < w {
      ShortSpan(begin, end, w);
    }
  }

  lemma ShortSpan(begin: int, end: int, w: nat)
    requires 0 <= end - begin < w
    ensures (end - begin) % w == end - begin
  {
    ModUnique(end - begin, 0, end - begin, w);
  }

  lemma SplitDifference(x: int, y: int, w: nat)
    requires w > 0
    ensures y - x == (y / w - x / w) * w + (y % w - x % w)
  {
  }

  /** The byte of the window at position `k`. */
  ghost function Slot(w: seq<byte>, k: int): byte
    requires |w| > 0
  {
    w[k % |w|]
  }

  /** The `n` bytes of the window from position `from` on, around its end. */
  ghost function Circular(w: seq<byte>, from: int, n: nat): (r: seq<byte>)
    requires |w| > 0
    ensures |r| == n && forall i {:trigger r[i]} :: 0 <= i < n ==> r[i] == Slot(w, from + i)
  {
    if n == 0 then [] else Circular(w, from, n - 1) + [Slot(w, from + n - 1)]
  }

  lemma CircularUnbroken(w: seq<byte>, from: int, n: nat)
    requires |w| > 0 && from % |w| + n <= |w|
    ensures w[from % |w|..from % |w| + n] == Circular(w, from, n)
  {
    var run, circular := w[from % |w|..from % |w| + n], Circular(w, from, n);
    forall i | 0 <= i < n
      ensures run[i] == circular[i]
    {
      ModAdd(from, i, |w|);
    }
  }

  lemma CircularJoins(w: seq<byte>, from: int, m: nat, n: nat)
    requires |w| > 0
    ensures Circular(w, from, m) + Circular(w, from + m, n) == Circular(w, from, m + n)
  {
    hide Slot;
    var joined, circular := Circular(w, from, m) + Circular(w, from + m, n), Circular(w, from, m + n);
    forall i | 0 <= i < m + n
      ensures joined[i] == circular[i]
    {
      assert m <= i ==> from + m + (i - m) == from + i;
    }
  }

  /** The same slots, one turn of the window later. */
  lemma CircularTurns(w: seq<byte>, from: int, n: nat)
    requires |w| > 0
    ensures Circular(w, from + |w|, n) == Circular(w, from, n)
  {
    var later, circular := Circular(w, from + |w|, n), Circular(w, from, n);
    forall i | 0 <= i < n
      ensures later[i] == circular[i]
    {
      ModShift(from + i, 1, |w|);
    }
  }

  /** A stretch of the history that the window still holds is there in full, around the end if need be. */
  lemma CircularIsHistory(w: seq<byte>, h: seq<byte>, from: nat, n: nat)
    requires Refines(w, h) && |h| - |w| <= from && from + n <= |h|
    ensures Circular(w, from, n) == h[from..from + n]
  {
    var circular, stretch := Circular(w, from, n), h[from..from + n];
    forall i | 0 <= i < n
      ensures circular[i] == stretch[i]
    {
      assert At(h, from + i) == stretch[i];
    }
  }

  lemma OneBack(x: int, w: nat)
    requires w > 0
    ensures (x - 1 - x) % w == w - 1
  {
    ModUnique(-1, -1, w - 1, w);
  }

  /** Where a failed repeat takes back a byte that has been delivered, the span to deliver runs back by one byte: what
      is handed over is everything else the window holds, once more. */
  lemma DeliveredAgain(w: seq<byte>, h: seq<byte>)
    requires |w| > 0 && Refines(w, h) && |h| >= |w|
    ensures Circular(w, |h|, (|h| - 1 - |h|) % |w|) == h[|h| - |w|..|h| - 1]
  {
    hide Circular, Refines;
    OneBack(|h|, |w|);
    CircularTurns(w, |h| - |w|, |w| - 1);
    CircularIsHistory(w, h, |h| - |w|, |w| - 1);
  }

  class Unpacker {
    var window: array<byte>
    var solidOffset: nat
    var writePtr: int
    var lastWritePtr: int
    var lastLen: int
    var cache: Cache
    // The block starts of the filters not yet applied.
    var filters: seq<nat>
    // The current block and how far it has been decoded; all the blocks and which one comes next.
    var block: seq<Symbol>
    var inAddr: nat
    const blocks: seq<seq<Symbol>>
    var nextBlock: nat
    var blockFinished: bool
    var allFiltersApplied: bool
    // What has been handed to the user, in order.
    var delivered: seq<byte>
    const maxLen: nat
    // Everything decoded, earlier files of a solid archive included; and the symbols it was decoded from.
    ghost var history: seq<byte>
    ghost var symbols: seq<Symbol>

    /** The window up to the write pointer is that of the history. */
    ghost predicate Refined()
      reads this, window
    {
      |history| == solidOffset + writePtr && Refines(window[..], history)
    }

    /** What has been handed over is the history up to the byte where delivery stands. */
    ghost predicate DeliveredSoFar()
      reads this
    {
      && 0 <= lastWritePtr <= writePtr && solidOffset + lastWritePtr <= |history|
      && delivered == history[solidOffset..solidOffset + lastWritePtr]
    }

    ghost predicate Core()
      reads this, window
    {
      && window.Length / 2 + maxLen < window.Length && maxLen > 0
      && Refined()
      && 0 <= lastLen <= maxLen
      && DeliveredSoFar()
      && (filters != [] ==> filters[0] >= lastWritePtr)
      && forall i {:trigger blocks[i]} :: 0 <= i < |blocks| ==> AllDecodable(blocks[i], maxLen)
    }

    /** The state is what the symbols of the blocks, up to where decoding stands, make of a fresh one. */
    ghost predicate Decoded()
      reads this, window
    {
      && window.Length > 0
      && State() == Run(Fresh(solidOffset), symbols, window.Length)
      && Progress(symbols, blocks, nextBlock, block, inAddr, blockFinished)
    }

    /** What has not been delivered is in the window: nothing undelivered has been written over, and
        what has been delivered is the history up to there. */
    ghost predicate Valid()
      reads this, window
    {
      Core() && Decoded() && writePtr - lastWritePtr < window.Length
    }

    /** No filter is pending and all that is decoded has been delivered. */
    ghost predicate Settled()
      reads this, window
    {
      Valid() && filters == [] && allFiltersApplied && lastWritePtr == writePtr
    }

    ghost function State(): Lz
      reads this
    {
      Lz(history, lastLen, cache)
    }

    /** A fresh window; `solidOffset` bytes of zeros stand for what earlier files left. */
    constructor InitUnpack(windowSize: nat, maxLen: nat, solidOffset: nat, blocks: seq<seq<Symbol>>)
      requires windowSize / 2 + maxLen < windowSize && maxLen > 0
      requires forall i {:trigger blocks[i]} :: 0 <= i < |blocks| ==> AllDecodable(blocks[i], maxLen)
      ensures Settled() && fresh(window) && window.Length == windowSize
      ensures history == Zeros(solidOffset) && delivered == [] && lastLen == 0 && cache == [0, 0, 0, 0]
      ensures this.blocks == blocks && nextBlock == 0 && this.solidOffset == solidOffset
    {
      window := new byte[windowSize](_ => 0);
      this.solidOffset, writePtr, lastWritePtr, lastLen := solidOffset, 0, 0, 0;
      cache, filters, block, inAddr, nextBlock, blockFinished, delivered := [0, 0, 0, 0], [], [], 0, 0, true, [];
      this.blocks, this.maxLen, allFiltersApplied := blocks, maxLen, true;
      history, symbols := Zeros(solidOffset), [];
      new;
      FreshWindow(window[..], history);
    }

    /** Write one byte at the write pointer. */
    method Put(b: byte)
      requires Core()
      modifies this`writePtr, this`history, window
      ensures Core() && history == old(history) + [b] && writePtr == old(writePtr) + 1
    {
      hide AllDecodable, Refines;
      var writeIdx := solidOffset + writePtr;
      RefinesWrite(window[..], history, b);
      ghost var was := window[..];
      window[writeIdx % window.Length] := b;
      assert window[..] == was[writeIdx % window.Length := b];
      writePtr := writePtr + 1;
      history := history + [b];
    }

    /** Copy the byte `dist` back to the write pointer. */
    method CopyOne(dist: int)
      requires Core()
      modifies this`writePtr, this`history, window
      ensures Core() && writePtr == old(writePtr) + 1
      ensures history == old(history) + [At(old(history), |old(history)| - Effective(dist, window.Length))]
    {
      RefinesRead(window[..], history, dist);
      Put(window[(solidOffset + writePtr - dist) % window.Length]);
    }

    /** There is a byte to take back, and it equals the one it was written over. */
    ghost predicate TakesBackCleanly()
      reads this, window
    {
      history != [] && At(history, |history| - 1) == At(history, |history| - 1 - window.Length)
    }

    /** What adding a negative length to the write pointer does. */
    method MoveBack(len: int)
      requires Core() && len < 0
      modifies this`writePtr, this`history
      ensures writePtr == old(writePtr) + len && history == old(history)[..Max(0, |old(history)| + len)]
      ensures len == -1 ==> (Refined() <==> old(TakesBackCleanly()))
      ensures len == -1 ==> (DeliveredSoFar() <==> lastWritePtr < old(writePtr))
    {
      hide AllDecodable, Refines, At;
      if history != [] {
        RewindExactly(window[..], history);
      }
      ghost var was, end := history, solidOffset + lastWritePtr;
      writePtr := writePtr + len;
      history := history[..Max(0, |history| + len)];
      assert end <= |history| ==> history[solidOffset..end] == was[solidOffset..end];
    }

    /** The overlapping copy inside the circular window. The loop takes no turn for a negative length, which then
        moves the write pointer back. */
    method CopyString(len: int, dist: int)
      requires Core()
      modifies this`writePtr, this`history, window
      ensures writePtr == old(writePtr) + len
      ensures history == CopiedBy(old(history), Effective(dist, window.Length), len)
      ensures len >= 0 ==> Core()
      ensures len < 0 ==> window[..] == old(window[..])
      ensures len == -1 ==> (Refined() <==> old(TakesBackCleanly()))
      ensures len == -1 ==> (DeliveredSoFar() <==> lastWritePtr < old(writePtr))
    {
      hide AllDecodable, Refines, At;
      if len < 0 {
        MoveBack(len);
        return;
      }
      ghost var d := Effective(dist, window.Length);
      var i := 0;
      while i < len
        invariant 0 <= i <= len && Core() && writePtr == old(writePtr) + i
        invariant history == Copied(old(history), d, i)
      {
        CopiedOneMore(old(history), d, i);
        CopyOne(dist);
        i := i + 1;
      }
    }

    method ApplyMatch(sym: Symbol) returns (code: int)
      requires Core() && sym.Match? && Reported(sym, maxLen)
      modifies this`writePtr, this`history, this`lastLen, this`cache, window
      ensures Core() && State() == Decode(old(State()), sym, window.Length)
      ensures code == CodeOf(sym)
      ensures writePtr <= old(writePtr) + maxLen
      ensures code == ARCHIVE_OK ==>
                Lengthened(writePtr - old(writePtr), sym.len, DecodeDistance(sym.slot, sym.high, sym.low).value)
    {
      var d := DecodeDistance(sym.slot, sym.high, sym.low);
      if sym.len == -1 || d.Overflow? {
        return ARCHIVE_FATAL;
      }
      cache := CachePush(cache, d.value);
      lastLen := Bump(sym.len, d.value);
      CopyString(lastLen, d.value);
      return ARCHIVE_OK;
    }

    method ApplyRepeat(idx: CacheIndex, len: int)
      requires Core() && -1 <= len <= maxLen
      modifies this`writePtr, this`history, this`lastLen, this`cache, window
      ensures State() == Decode(old(State()), RepeatDistance(idx, len), window.Length)
      ensures writePtr == old(writePtr) + len && lastLen == len
      ensures len >= 0 ==> Core()
      ensures len == -1 ==> window[..] == old(window[..])
      ensures len == -1 ==> (Refined() <==> old(TakesBackCleanly()))
      ensures len == -1 ==> (DeliveredSoFar() <==> lastWritePtr < old(writePtr))
      ensures multiset(cache) == multiset(old(cache)) && cache[0] == old(cache[idx])
    {
      hide AllDecodable, Copied, Refines, At, CacheTouch;
      TouchPermutes(cache, idx);
      var dist := cache[idx];
      cache := CacheTouch(cache, idx);
      CopyString(len, dist);
      lastLen := len;
    }

    /** One symbol. A failed repeat is applied like any other, and then the window is still refined exactly if the
        byte could be taken back cleanly, and delivery still right exactly if that byte was not delivered yet. */
    method Apply(sym: Symbol) returns (code: int)
      requires Core() && Reported(sym, maxLen)
      modifies this`writePtr, this`history, this`lastLen, this`cache, this`filters, window
      ensures State() == Decode(old(State()), sym, window.Length)
      ensures code == CodeOf(sym)
      ensures writePtr <= old(writePtr) + maxLen
      ensures sym.Match? && code == ARCHIVE_OK ==>
                Lengthened(writePtr - old(writePtr), sym.len, DecodeDistance(sym.slot, sym.high, sym.low).value)
      ensures filters == if sym.NewFilter? then old(filters + [writePtr + sym.start]) else old(filters)
      ensures !FailedRepeat(sym) ==> Core()
      ensures FailedRepeat(sym) ==>
                && writePtr == old(writePtr) - 1 && lastLen == -1
                && (Refined() <==> old(TakesBackCleanly()))
                && (DeliveredSoFar() <==> lastWritePtr < old(writePtr))
    {
      hide AllDecodable, Refines, At, DecodeDistance, CacheTouch, CachePush;
      match sym {
        case Literal(num) =>
          Put(num);
        case Match(_, _, _, _) =>
          code := ApplyMatch(sym);
          return;
        case NewFilter(start) =>
          filters := filters + [writePtr + start];
        case RepeatLast =>
          if lastLen != 0 {
            CopyString(lastLen, cache[0]);
          }
        case RepeatDistance(idx, len) =>
          ApplyRepeat(idx, len);
        case BrokenRepeat(idx) =>
          cache := CacheTouch(cache, idx);
          return ARCHIVE_FATAL;
        case Broken(c) =>
          return c;
      }
      code := ARCHIVE_OK;
    }

    lemma NextIsDecodable()
      requires Valid() && inAddr < |block|
      ensures Decodable(block[inAddr], maxLen)
    {
      assert AllDecodable(blocks[nextBlock - 1], maxLen);
    }

    /** Decode and apply the next symbol of the block. */
    method DecodeNext() returns (code: int)
      requires Valid() && inAddr < |block| && !blockFinished && writePtr - lastWritePtr <= window.Length / 2
      modifies this`writePtr, this`history, this`symbols, this`lastLen, this`cache, this`filters, this`inAddr, window
      ensures Valid() && inAddr == old(inAddr) + 1
      ensures code == CodeOf(block[inAddr - 1])
      ensures old(symbols) <= symbols
      ensures Plain(block) ==> filters == old(filters)
      ensures code == ARCHIVE_OK || code == ARCHIVE_EOF || code == ARCHIVE_FATAL
    {
      hide Decode, Run, Progress, Refines, AllDecodable;
      var sym := block[inAddr];
      RunStep(Fresh(solidOffset), symbols, sym, window.Length);
      ProgressSymbol(symbols, blocks, nextBlock, block, inAddr);
      NextIsDecodable();
      inAddr := inAddr + 1;
      symbols := symbols + [sym];
      code := Apply(sym);
      assert State() == Run(Fresh(solidOffset), symbols, window.Length);
    }

    /** Decode until the block ends, half the window awaits delivery, or something breaks. */
    method UncompressBlock() returns (code: int)
      requires Valid() && !blockFinished
      modifies this`writePtr, this`history, this`symbols, this`lastLen, this`cache, this`filters, this`inAddr,
               this`blockFinished, window
      ensures Valid() && old(inAddr) <= inAddr && old(symbols) <= symbols
      ensures Plain(block) ==> filters == old(filters)
      ensures code == ARCHIVE_OK ==>
                if writePtr - lastWritePtr > window.Length / 2 then !blockFinished
                else inAddr == |block| && blockFinished
      ensures code != ARCHIVE_OK ==> !blockFinished && old(inAddr) < inAddr && code == CodeOf(block[inAddr - 1])
      ensures code == ARCHIVE_OK || code == ARCHIVE_EOF || code == ARCHIVE_FATAL
    {
      hide Run, Refines, AllDecodable, Joined;
      while true
        invariant Valid() && !blockFinished && old(inAddr) <= inAddr && old(symbols) <= symbols
        invariant Plain(block) ==> filters == old(filters)
        decreases |block| - inAddr
      {
        if writePtr - lastWritePtr > window.Length / 2 {
          return ARCHIVE_OK;
        }
        if inAddr == |block| {
          blockFinished := true;
          return ARCHIVE_OK;
        }
        code := DecodeNext();
        if code != ARCHIVE_OK {
          return;
        }
      }
    }

    /** Decoding has come to the end of the last block, or to a symbol that stops it with this code. */
    ghost predicate Halted(code: int)
      reads this
    {
      if blockFinished then code == ARCHIVE_EOF && nextBlock == |blocks|
      else 0 < inAddr <= |block| && code == CodeOf(block[inAddr - 1])
    }

    /** Start the next block unless one is still being decoded, and decode. */
    method ProcessBlock() returns (code: int)
      requires Valid()
      modifies this`writePtr, this`history, this`symbols, this`lastLen, this`cache, this`filters, this`block,
               this`inAddr, this`nextBlock, this`blockFinished, window
      ensures Valid() && old(symbols) <= symbols
      ensures AllPlain(blocks) ==> filters == old(filters)
      ensures code == ARCHIVE_OK || code == ARCHIVE_EOF || code == ARCHIVE_FATAL
      ensures code == ARCHIVE_OK && writePtr - lastWritePtr <= window.Length / 2 ==> blockFinished
      ensures code != ARCHIVE_OK ==> Halted(code)
      ensures code != ARCHIVE_OK && blockFinished ==> writePtr == old(writePtr)
      ensures code == ARCHIVE_OK ==> nextBlock == old(nextBlock) + (if old(blockFinished) then 1 else 0)
    {
      hide Run, Refines, AllDecodable, Joined;
      if blockFinished {
        if nextBlock == |blocks| {
          return ARCHIVE_EOF;
        }
        ProgressBlock(symbols, blocks, nextBlock, block, inAddr);
        block, inAddr, nextBlock, blockFinished := blocks[nextBlock], 0, nextBlock + 1, false;
      }
      code := UncompressBlock();
    }

    /** Hand a run of bytes to the user; each run starts where the last one ended. */
    method PushDataReady(bytes: seq<byte>, offset: nat)
      requires offset == |delivered|
      modifies this`delivered
      ensures delivered == old(delivered) + bytes
    {
      delivered := delivered + bytes;
    }

    /** Hand over a span that starts where delivery stands, in one run or in two. */
    method PushData(begin: int, end: int)
      requires window.Length > 0 && begin == lastWritePtr == |delivered|
      modifies this`delivered, this`lastWritePtr
      ensures var n := (end - begin) % window.Length;
              delivered == old(delivered) + Circular(window[..], solidOffset + begin, n)
      ensures 0 <= end - begin < window.Length ==> lastWritePtr == end
    {
      hide Circular;
      var w := window.Length;
      var idxBegin, idxEnd := begin + solidOffset, end + solidOffset;
      var solidWritePtr := (solidOffset + lastWritePtr) % w;
      SpanWraps(idxBegin, idxEnd, w);
      if idxBegin % w > idxEnd % w {
        PushWrapped(solidWritePtr, w - idxBegin % w, idxEnd % w, idxBegin);
      } else {
        CircularUnbroken(window[..], idxBegin, (idxEnd - idxBegin) % w);
        PushDataReady(window[solidWritePtr..solidWritePtr + (idxEnd - idxBegin) % w], lastWritePtr);
        lastWritePtr := lastWritePtr + (idxEnd - idxBegin);
      }
    }

    method PushWrapped(solidWritePtr: nat, frag1: nat, frag2: nat, ghost from: int)
      requires window.Length > 0 && lastWritePtr == |delivered|
      requires solidWritePtr == from % window.Length && solidWritePtr + frag1 == window.Length && frag2 <= window.Length
      modifies this`delivered, this`lastWritePtr
      ensures lastWritePtr == old(lastWritePtr) + frag1 + frag2
      ensures delivered == old(delivered) + Circular(window[..], from, frag1 + frag2)
    {
      hide Circular;
      Restart(from, frag1, window.Length);
      CircularUnbroken(window[..], from, frag1);
      CircularUnbroken(window[..], from + frag1, frag2);
      CircularJoins(window[..], from, frag1, frag2);
      PushDataReady(window[solidWritePtr..solidWritePtr + frag1], lastWritePtr);
      PushDataReady(window[..frag2], lastWritePtr + frag1);
      lastWritePtr := lastWritePtr + (frag1 + frag2);
    }

    /** Deliver `[begin, end)`, which starts where delivery stands. */
    method PushWindowData(begin: nat, end: nat)
      requires Valid() && begin == lastWritePtr <= end <= writePtr
      requires filters != [] ==> end <= filters[0]
      modifies this`delivered, this`lastWritePtr
      ensures Valid() && lastWritePtr == end
      ensures delivered == old(delivered) + history[solidOffset + begin..solidOffset + end]
    {
      hide Run, Progress, AllDecodable, Refines, Circular;
      CircularIsHistory(window[..], history, solidOffset + begin, end - begin);
      ShortSpan(begin, end, window.Length);
      PushData(begin, end);
      Join(history, solidOffset, solidOffset + begin, solidOffset + end);
    }

    /** Hand over what is decoded, up to the first filter, unless applying the filters has reported otherwise. */
    method DeliverDecoded(applied: int) returns (code: int)
      requires Valid()
      modifies this`delivered, this`lastWritePtr
      ensures Valid() && old(delivered) <= delivered
      ensures code == ARCHIVE_OK || code == ARCHIVE_RETRY || code == ARCHIVE_FATAL
      ensures code == ARCHIVE_FATAL <==> applied == ARCHIVE_FATAL
      ensures applied == ARCHIVE_RETRY ==> code == ARCHIVE_OK
      ensures code == ARCHIVE_OK && applied != ARCHIVE_RETRY ==>
                && lastWritePtr > old(lastWritePtr)
                && lastWritePtr == (if filters == [] then writePtr else Min(filters[0], writePtr))
      ensures code == ARCHIVE_RETRY ==> lastWritePtr == (if filters == [] then writePtr else Min(filters[0], writePtr))
      ensures code != ARCHIVE_OK || applied == ARCHIVE_RETRY ==>
                delivered == old(delivered) && lastWritePtr == old(lastWritePtr)
    {
      hide Run, Refines, AllDecodable, Progress;
      if applied == ARCHIVE_RETRY {
        return ARCHIVE_OK;
      } else if applied == ARCHIVE_FATAL {
        return ARCHIVE_FATAL;
      }
      var maxEndPos := writePtr;
      if |filters| > 0 {
        maxEndPos := Min(filters[0], writePtr);
      }
      if maxEndPos == lastWritePtr {
        return ARCHIVE_RETRY;
      }
      PushWindowData(lastWritePtr, maxEndPos);
      lastWritePtr := maxEndPos;
      return ARCHIVE_OK;
    }

    /** Decode block after block until there is something to deliver. */
    method ProcessBlocks() returns (code: int)
      requires Valid()
      modifies this`writePtr, this`history, this`symbols, this`lastLen, this`cache, this`filters, this`block,
               this`inAddr, this`nextBlock, this`blockFinished, window
      ensures Valid() && old(symbols) <= symbols
      ensures AllPlain(blocks) ==> filters == old(filters)
      ensures code == ARCHIVE_OK || code == ARCHIVE_EOF || code == ARCHIVE_FATAL
      ensures code == ARCHIVE_OK ==> lastWritePtr != writePtr
      ensures code != ARCHIVE_OK ==> Halted(code)
      ensures code == ARCHIVE_EOF && blockFinished ==> symbols == Joined(blocks, |blocks|)
      ensures code == ARCHIVE_EOF && blockFinished && old(lastWritePtr == writePtr) ==> lastWritePtr == writePtr
    {
      hide Run, Refines, AllDecodable, AllPlain, Joined, CodeOf;
      while true
        invariant Valid() && old(symbols) <= symbols
        invariant AllPlain(blocks) ==> filters == old(filters)
        invariant old(lastWritePtr == writePtr) ==> lastWritePtr == writePtr
        decreases |blocks| - nextBlock, if blockFinished then 0 else 1
      {
        code := ProcessBlock();
        if code == ARCHIVE_EOF || code == ARCHIVE_FATAL {
          AllDecoded(symbols, blocks, nextBlock, block, inAddr, blockFinished);
          return;
        }
        if lastWritePtr == writePtr {
          continue;
        }
        break;
      }
    }

    /** Decode until there is something to deliver, and deliver up to the first filter. `applied` is
        what applying the filters reported. */
    method UncompressFile(applied: int) returns (code: int)
      requires Valid()
      modifies this, window
      ensures Valid() && window == old(window) && solidOffset == old(solidOffset)
      ensures old(delivered) <= delivered && old(symbols) <= symbols
      ensures AllPlain(blocks) ==> filters == old(filters)
      ensures code == ARCHIVE_OK || code == ARCHIVE_RETRY || code == ARCHIVE_EOF || code == ARCHIVE_FATAL
      // A file without filters is delivered up to the last byte decoded.
      ensures code == ARCHIVE_OK && applied != ARCHIVE_RETRY ==>
                && lastWritePtr > old(lastWritePtr)
                && lastWritePtr == (if filters == [] then writePtr else Min(filters[0], writePtr))
      // There is nothing to deliver only where a filter is pending, or decoding waits for filters.
      ensures code == ARCHIVE_RETRY ==>
                || (filters != [] && filters[0] == lastWritePtr < writePtr)
                || (!allFiltersApplied && lastWritePtr == writePtr)
      ensures code == ARCHIVE_EOF ==> allFiltersApplied && Halted(code)
      ensures code == ARCHIVE_FATAL ==> applied == ARCHIVE_FATAL || Halted(code)
      // At the end of the last block everything has been decoded, and delivered if it was before the call.
      ensures code == ARCHIVE_EOF && blockFinished ==> symbols == Joined(blocks, |blocks|)
      ensures code == ARCHIVE_EOF && blockFinished && old(lastWritePtr == writePtr) ==> lastWritePtr == writePtr
      ensures allFiltersApplied == old(allFiltersApplied)
      ensures code != ARCHIVE_OK || applied == ARCHIVE_RETRY ==> delivered == old(delivered)
    {
      hide Run, Refines, AllDecodable, AllPlain, Joined, CodeOf, Progress;
      if allFiltersApplied {
        code := ProcessBlocks();
        if code == ARCHIVE_EOF || code == ARCHIVE_FATAL {
          return;
        }
      }
      code := DeliverDecoded(applied);
    }

    /** What the driver does next when a failed repeat comes right after a delivery and nothing follows it: it hands
        over all the other bytes of the window once more. */
    method FailAndDeliver(idx: CacheIndex)
      requires Valid() && lastWritePtr == writePtr && |history| >= window.Length
      modifies this`writePtr, this`history, this`lastLen, this`cache, this`delivered, this`lastWritePtr, window
      ensures writePtr == old(writePtr) - 1
      ensures var h := old(history); delivered == old(delivered) + h[|h| - window.Length..|h| - 1]
    {
      hide Run, Progress, AllDecodable, Refines, Circular, Decode, CacheTouch;
      DeliveredAgain(window[..], history);
      assert |delivered| == lastWritePtr;
      ApplyRepeat(idx, -1);
      PushData(lastWritePtr, writePtr);
    }

    lemma PlainNeverStops()
      requires Valid() && AllPlain(blocks) && 0 < inAddr <= |block|
      ensures CodeOf(block[inAddr - 1]) == ARCHIVE_OK
    {
      assert Plain(blocks[nextBlock - 1]);
    }

    lemma SymbolsAreBounded()
      requires Valid()
      ensures |symbols| <= |Joined(blocks, |blocks|)|
    {
      JoinedGrows(blocks, nextBlock, |blocks|);
    }

    /** One call of the driver on a file without filters: more is delivered, or the data has come to its end. */
    method UnpackMore() returns (code: int)
      requires Settled() && AllPlain(blocks)
      modifies this, window
      ensures Settled() && window == old(window) && solidOffset == old(solidOffset)
      ensures code == ARCHIVE_OK || code == ARCHIVE_EOF
      ensures code == ARCHIVE_OK ==> |old(symbols)| < |symbols|
      ensures |old(symbols)| <= |symbols| <= |Joined(blocks, |blocks|)|
      ensures code == ARCHIVE_EOF ==> symbols == Joined(blocks, |blocks|)
    {
      hide Run, Refines, AllDecodable, AllPlain, Joined;
      ghost var before, symbolsBefore := State(), symbols;
      code := UncompressFile(ARCHIVE_OK);
      SymbolsAreBounded();
      if code == ARCHIVE_OK {
        assert symbols == symbolsBefore ==> State() == before;
      } else if 0 < inAddr {
        PlainNeverStops();
      }
    }

    /** A file without filters whose symbols all decode is delivered in full: calling the driver until the end of the
        data hands over exactly what the symbols of all its blocks decode to. */
    method UnpackAll()
      requires Settled() && AllPlain(blocks)
      modifies this, window
      ensures window == old(window) && solidOffset == old(solidOffset)
      ensures var h := Run(Fresh(solidOffset), Joined(blocks, |blocks|), window.Length).history;
              |h| >= solidOffset && delivered == h[solidOffset..]
    {
      hide Run, Refines, AllDecodable, AllPlain, Joined;
      var code := ARCHIVE_OK;
      while code == ARCHIVE_OK
        invariant Settled() && window == old(window) && solidOffset == old(solidOffset)
        invariant code != ARCHIVE_OK ==> symbols == Joined(blocks, |blocks|)
        decreases |Joined(blocks, |blocks|)| - |symbols|, if code == ARCHIVE_OK then 1 else 0
      {
        code := UnpackMore();
      }
    }
  }

  /** From beginning to end, on a fresh decoder. */
  method Unpack(windowSize: nat, maxLen: nat, solidOffset: nat, blocks: seq<seq<Symbol>>) returns (delivered: seq<byte>)
    requires windowSize / 2 + maxLen < windowSize && maxLen > 0
    requires forall i {:trigger blocks[i]} :: 0 <= i < |blocks| ==> AllDecodable(blocks[i], maxLen)
    requires AllPlain(blocks)
    ensures var h := Run(Fresh(solidOffset), Joined(blocks, |blocks|), windowSize).history;
            |h| >= solidOffset && delivered == h[solidOffset..]
  {
    var unpacker := new Unpacker.InitUnpack(windowSize, maxLen, solidOffset, blocks);
    unpacker.UnpackAll();
    delivered := unpacker.delivered;
  }

  /** Whatever bytes and copies an encoder makes of a file, it is that file which is delivered. */
  method UnpackItems(windowSize: nat, maxLen: nat, items: seq<Item>) returns (delivered: seq<byte>)
    requires windowSize / 2 + maxLen < windowSize && maxLen > 0
    requires Codable(items, windowSize, maxLen)
    ensures delivered == Meant([], items)
  {
    hide Run, Plain, AllDecodable, Codable, CodeItem;
    CodableIsBack(items, windowSize, maxLen);
    var block := CodeItems(items);
    CodesArePlain(items, windowSize, maxLen);
    delivered := Unpack(windowSize, maxLen, 0, [block]);
    assert Joined([block], 1) == Joined([block], 0) + block == block;
    ItemsComeBack(Fresh(0), items, windowSize, maxLen);
    assert Zeros(0) == [];
  }

  lemma CodableIsBack(items: seq<Item>, w: nat, maxLen: nat)
    requires Codable(items, w, maxLen)
    ensures forall i {:trigger items[i]} :: 0 <= i < |items| && items[i].Copy? ==> items[i].dist >= 1
  {
  }

  lemma {:induction false} JoinedGrows(blocks: seq<seq<Symbol>>, m: nat, n: nat)
    requires m <= n <= |blocks|
    ensures |Joined(blocks, m)| <= |Joined(blocks, n)|
    decreases n
  {
    if m < n {
      JoinedGrows(blocks, m, n - 1);
    }
  }

  lemma Join(h: seq<byte>, a: nat, b: nat, c: nat)
    requires a <= b <= c <= |h|
    ensures h[a..b] + h[b..c] == h[a..c]
  {
  }

  lemma FreshWindow(w: seq<byte>, h: seq<byte>)
    requires |w| > 0
    requires forall i :: 0 <= i < |w| ==> w[i] == 0
    requires forall i :: 0 <= i < |h| ==> h[i] == 0
    ensures Refines(w, h)
  {
  }

  lemma Restart(x: int, n: nat, w: nat)
    requires w > 0 && n == w - x % w
    ensures (x + n) % w == 0
  {
    ModAdd(x, n, w);
  }
}
