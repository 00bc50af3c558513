/** The PPMd7 range encoder: narrowing an interval symbol by symbol. */
module RangeEncoder {
  import opened Bytes
  import opened Modular

  const TOP_VALUE: nat := 0x100_0000

  /** One symbol: its slice `[start, start + size)` of a table of `total`. */
  datatype Symbol = Symbol(start: nat, size: nat, total: nat)

  /** The slice lies in the table, and the table is no finer than the range. */
  predicate ValidSymbol(s: Symbol, range: nat) {
    0 < s.size && s.start + s.size <= s.total <= range
  }

  /** The interval `[low, low + range)`, in units of 256 to the minus `scale`. */
  datatype Interval = Interval(low: nat, range: nat, scale: nat)

  function Narrowed(i: Interval, s: Symbol): Interval
    requires s.total > 0
  {
    var r := i.range / s.total;
    Interval(i.low + s.start * r, r * s.size, i.scale)
  }

  function Renormalised(i: Interval): (r: Interval)
    requires i.range > 0
    ensures r.range >= TOP_VALUE && r.scale >= i.scale
    decreases TOP_VALUE - i.range
  {
    if i.range >= TOP_VALUE then i
    else Renormalised(Interval(256 * i.low, 256 * i.range, i.scale + 1))
  }

  /** The encoder may go on: the range has been renormalised and fits 32 bits. */
  predicate Ready(i: Interval) {
    TOP_VALUE <= i.range < TWO32
  }

  function Encoded(i: Interval, s: Symbol): (r: Interval)
    requires ValidSymbol(s, i.range) && Ready(i)
    ensures r.range >= TOP_VALUE
  {
    NarrowedIsPositive(i, s);
    Renormalised(Narrowed(i, s))
  }

  /** `inner` is part of `outer`, both brought to the finer of their units. */
  ghost predicate Nested(inner: Interval, outer: Interval) {
    && inner.scale >= outer.scale
    && outer.low * Pow256(inner.scale - outer.scale) <= inner.low
    && inner.low + inner.range <= (outer.low + outer.range) * Pow256(inner.scale - outer.scale)
  }

  /** All of `left` is before all of `right`. */
  ghost predicate Before(left: Interval, right: Interval) {
    (left.low + left.range) * Pow256(right.scale) <= right.low * Pow256(left.scale)
  }

  ghost predicate Disjoint(a: Interval, b: Interval) {
    Before(a, b) || Before(b, a)
  }

  lemma NarrowedIsPositive(i: Interval, s: Symbol)
    requires ValidSymbol(s, i.range)
    ensures Narrowed(i, s).range > 0
    ensures Narrowed(i, s).low >= i.low
    ensures Narrowed(i, s).low + Narrowed(i, s).range <= i.low + i.range
  {
    var r := i.range / s.total;
    assert r >= 1;
    assert r * s.size >= s.size by {
      MulMonotone(1, r, s.size);
    }
    assert s.start * r + r * s.size == (s.start + s.size) * r;
    MulMonotone(s.start + s.size, s.total, r);
    assert s.total * r <= i.range;
  }

  // ---------- the range as a 32-bit number, for any arguments at all ----------

  /** What `Range /= total` and `Range *= size` leave. */
  function NarrowedRange(range: nat, s: Symbol): (r: nat)
    requires s.total > 0
    ensures r < TWO32
  {
    (range / s.total) * s.size % TWO32
  }

  /** The range after at most `n` turns of the renormalising loop. */
  function RangeAfter(range: nat, n: nat): nat
    decreases n
  {
    if n == 0 || range >= TOP_VALUE then range else RangeAfter(range * 256 % TWO32, n - 1)
  }

  ghost predicate LoopEnds(range: nat) {
    exists n :: RangeAfter(range, n) >= TOP_VALUE
  }

  lemma {:induction false} ZeroStaysZero(n: nat)
    ensures RangeAfter(0, n) == 0
  {
    if n > 0 {
      ZeroStaysZero(n - 1);
    }
  }

  /** The loop ends exactly from a range that is not zero, and then after at most three turns. */
  lemma LoopEndsExactly(range: nat)
    requires range < TWO32
    ensures LoopEnds(range) <==> range != 0
    ensures range != 0 ==> RangeAfter(range, 3) >= TOP_VALUE
  {
    if range == 0 {
      forall n: nat
        ensures RangeAfter(range, n) < TOP_VALUE
      {
        ZeroStaysZero(n);
      }
    } else {
      ThreeTurns(range);
    }
  }

  /** Below 2^24 a turn of the loop does not wrap. */
  lemma OneTurn(range: nat, n: nat)
    requires n > 0 && range < TOP_VALUE
    ensures RangeAfter(range, n) == RangeAfter(range * 256, n - 1)
  {
    ModUnique(range * 256, 0, range * 256, TWO32);
  }

  lemma ThreeTurns(range: nat)
    requires range > 0
    ensures RangeAfter(range, 3) >= TOP_VALUE
  {
    if range < TOP_VALUE {
      OneTurn(range, 3);
      if range * 256 < TOP_VALUE {
        OneTurn(range * 256, 2);
        if range * 0x1_0000 < TOP_VALUE {
          OneTurn(range * 0x1_0000, 1);
        }
      }
    }
  }

  /** Encoding a symbol ends exactly when its narrowed range is not a multiple of 2^32. For a slice no larger
      than its table, that is when the slice is not empty and the table is no finer than the range. */
  lemma RenormalisesExactly(range: nat, s: Symbol)
    requires s.total > 0 && range < TWO32
    ensures LoopEnds(NarrowedRange(range, s)) <==> (range / s.total) * s.size % TWO32 != 0
    ensures s.size <= s.total ==> (LoopEnds(NarrowedRange(range, s)) <==> s.size > 0 && s.total <= range)
  {
    LoopEndsExactly(NarrowedRange(range, s));
    if s.size <= s.total {
      WithinTable(range, s.size, s.total);
    }
  }

  /** A slice no larger than its table narrows the range without wrapping. */
  lemma WithinTable(range: nat, size: nat, total: nat)
    requires 0 < total && size <= total && range < TWO32
    ensures (range / total) * size % TWO32 == (range / total) * size
    ensures (range / total) * size > 0 <==> size > 0 && total <= range
  {
    var r := range / total;
    QuotientBelow(range, total);
    MulMonotone(size, total, r);
    ModUnique(r * size, 0, r * size, TWO32);
    ProductIsPositive(r, size);
  }

  lemma QuotientBelow(range: nat, total: nat)
    requires total > 0
    ensures total * (range / total) <= range
    ensures range / total > 0 <==> total <= range
  {
    if total <= range {
      DivPositive(range, total);
    } else {
      ModUnique(range, 0, range, total);
    }
  }

  lemma ProductIsPositive(a: nat, b: nat)
    ensures a * b > 0 <==> a > 0 && b > 0
  {
    if a > 0 && b > 0 {
      MulMonotone(1, a, b);
    }
  }

  /** A slice larger than its table can wrap the range to zero: the loop then never ends. */
  lemma OversizedSliceNeverEnds()
    ensures var s := Symbol(0, 2, 1); s.size > 0 && s.total <= 0x8000_0000 && !LoopEnds(NarrowedRange(0x8000_0000, s))
  {
    LoopEndsExactly(0);
  }

  /** For a valid symbol nothing wraps: the range is that of the interval. */
  lemma ValidRangeIsExact(i: Interval, s: Symbol)
    requires ValidSymbol(s, i.range) && i.range < TWO32
    ensures NarrowedRange(i.range, s) == Narrowed(i, s).range > 0
  {
    NarrowedIsPositive(i, s);
    ModUnique(Narrowed(i, s).range, 0, Narrowed(i, s).range, TWO32);
  }

  lemma DivPositive(a: nat, b: nat)
    requires 0 < b <= a
    ensures a / b >= 1
  {
  }

  lemma {:induction false} Pow256Sum(m: nat, n: nat)
    ensures Pow256(m + n) == Pow256(m) * Pow256(n)
  {
    if n > 0 {
      Pow256Sum(m, n - 1);
    }
  }

  lemma {:induction false} RenormalisedIsSame(i: Interval)
    requires 0 < i.range < TWO32
    ensures var r := Renormalised(i);
            && r.low == i.low * Pow256(r.scale - i.scale)
            && r.range == i.range * Pow256(r.scale - i.scale)
            && Ready(r)
    decreases TOP_VALUE - i.range
  {
    if i.range < TOP_VALUE {
      var j := Interval(256 * i.low, 256 * i.range, i.scale + 1);
      RenormalisedIsSame(j);
      var n := Renormalised(j).scale - j.scale;
      assert Pow256(n + 1) == 256 * Pow256(n);
    }
  }

  /** Encoding a symbol narrows the interval, and leaves the encoder ready for the next. */
  lemma EncodedIsNested(i: Interval, s: Symbol)
    requires ValidSymbol(s, i.range) && Ready(i)
    ensures Ready(Encoded(i, s)) && Nested(Encoded(i, s), i)
    ensures 0x100_0000 <= Encoded(i, s).range < 0x1_0000_0000
  {
    NarrowedIsPositive(i, s);
    var n := Narrowed(i, s);
    RenormalisedIsSame(n);
    var r := Renormalised(n);
    var p := Pow256(r.scale - i.scale);
    MulMonotone(i.low, n.low, p);
    MulMonotone(n.low + n.range, i.low + i.range, p);
    assert (n.low + n.range) * p == n.low * p + n.range * p;
  }

  lemma NestedIsTransitive(a: Interval, b: Interval, c: Interval)
    requires Nested(a, b) && Nested(b, c)
    ensures Nested(a, c)
  {
    var p, q := Pow256(a.scale - b.scale), Pow256(b.scale - c.scale);
    Pow256Sum(b.scale - c.scale, a.scale - b.scale);
    MulMonotone(c.low * q, b.low, p);
    MulMonotone(b.low + b.range, (c.low + c.range) * q, p);
    MulAssociative(c.low, q, p);
    MulAssociative(c.low + c.range, q, p);
  }

  lemma MulAssociative(a: nat, b: nat, c: nat)
    ensures a * (b * c) == (a * b) * c
  {
  }

  /** Narrowing two intervals further leaves the one before the other. */
  lemma BeforeInherits(a: Interval, a': Interval, b: Interval, b': Interval)
    requires Before(a, b) && Nested(a', a) && Nested(b', b)
    ensures Before(a', b')
  {
    var p, q := Pow256(a'.scale - a.scale), Pow256(b'.scale - b.scale);
    var x, y := Pow256(a.scale), Pow256(b.scale);
    Pow256Sum(a.scale, a'.scale - a.scale);
    Pow256Sum(b.scale, b'.scale - b.scale);
    MulMonotone(a'.low + a'.range, (a.low + a.range) * p, y * q);
    MulMonotone((a.low + a.range) * y, b.low * x, p * q);
    MulMonotone(b.low * q, b'.low, x * p);
    Regroup(a.low + a.range, p, y, q);
    Regroup(b.low, x, p, q);
  }

  lemma Regroup(a: nat, p: nat, y: nat, q: nat)
    ensures (a * p) * (y * q) == (a * y) * (p * q) && (a * q) * (p * y) == (a * p) * (y * q)
  {
  }

  /** Different slices of one table lead to disjoint intervals. */
  lemma SlicesAreDisjoint(i: Interval, s: Symbol, t: Symbol)
    requires ValidSymbol(s, i.range) && ValidSymbol(t, i.range) && Ready(i)
             && s.total == t.total && s.start + s.size <= t.start
    ensures Before(Encoded(i, s), Encoded(i, t))
  {
    NarrowedIsPositive(i, s);
    NarrowedIsPositive(i, t);
    var m, n := Narrowed(i, s), Narrowed(i, t);
    SlicesSeparate(i.range / s.total, s.start, s.size, t.start);
    MulMonotone(m.low + m.range, n.low, Pow256(i.scale));
    RenormalisedIsNested(m);
    RenormalisedIsNested(n);
    BeforeInherits(m, Renormalised(m), n, Renormalised(n));
  }

  lemma SlicesSeparate(r: nat, start: nat, size: nat, other: nat)
    requires start + size <= other
    ensures start * r + r * size <= other * r
  {
    MulMonotone(start + size, other, r);
    assert start * r + r * size == (start + size) * r;
  }

  lemma RenormalisedIsNested(i: Interval)
    requires 0 < i.range < TWO32
    ensures Nested(Renormalised(i), i)
  {
    hide Renormalised, Pow256;
    RenormalisedIsSame(i);
    MulDistributes(i.low, i.range, Pow256(Renormalised(i).scale - i.scale));
  }

  lemma MulDistributes(a: nat, b: nat, c: nat)
    ensures (a + b) * c == a * c + b * c
  {
  }

  // ---------- messages ----------

  /** Every symbol is valid when its turn comes. */
  ghost predicate ValidMessage(i: Interval, symbols: seq<Symbol>)
    requires Ready(i)
    decreases |symbols|
  {
    symbols == [] ||
    (ValidSymbol(symbols[0], i.range) &&
     (EncodedIsNested(i, symbols[0]); ValidMessage(Encoded(i, symbols[0]), symbols[1..])))
  }

  ghost function Message(i: Interval, symbols: seq<Symbol>): (r: Interval)
    requires Ready(i) && ValidMessage(i, symbols)
    ensures Ready(r)
    decreases |symbols|
  {
    if symbols == [] then i
    else
      EncodedIsNested(i, symbols[0]);
      Message(Encoded(i, symbols[0]), symbols[1..])
  }

  lemma {:induction false} MessageIsNested(i: Interval, symbols: seq<Symbol>)
    requires Ready(i) && ValidMessage(i, symbols)
    ensures Nested(Message(i, symbols), i)
    decreases |symbols|
  {
    if symbols != [] {
      EncodedIsNested(i, symbols[0]);
      MessageIsNested(Encoded(i, symbols[0]), symbols[1..]);
      NestedIsTransitive(Message(i, symbols), Encoded(i, symbols[0]), i);
    }
  }

  /** Two messages can be told apart: they agree up to some symbol, and there choose different slices
      of the same table. What follows is of no consequence, nor is how long the messages are. */
  ghost predicate Diverge(a: seq<Symbol>, b: seq<Symbol>, at: nat) {
    && at < |a| && at < |b| && a[..at] == b[..at] && a[at].total == b[at].total
    && (a[at].start + a[at].size <= b[at].start || b[at].start + b[at].size <= a[at].start)
  }

  lemma {:induction false} MessagesAreDisjoint(i: Interval, a: seq<Symbol>, b: seq<Symbol>, at: nat)
    requires Ready(i) && Diverge(a, b, at)
    requires ValidMessage(i, a) && ValidMessage(i, b)
    ensures Disjoint(Message(i, a), Message(i, b))
    decreases at
  {
    EncodedIsNested(i, a[0]);
    EncodedIsNested(i, b[0]);
    if at > 0 {
      assert a[0] == a[..at][0] == b[..at][0] == b[0];
      assert a[1..][..at - 1] == a[..at][1..];
      assert b[1..][..at - 1] == b[..at][1..];
      MessagesAreDisjoint(Encoded(i, a[0]), a[1..], b[1..], at - 1);
    } else {
      MessageIsNested(Encoded(i, a[0]), a[1..]);
      MessageIsNested(Encoded(i, b[0]), b[1..]);
      if a[0].start + a[0].size <= b[0].start {
        SlicesAreDisjoint(i, a[0], b[0]);
        BeforeInherits(Encoded(i, a[0]), Message(i, a), Encoded(i, b[0]), Message(i, b));
      } else {
        SlicesAreDisjoint(i, b[0], a[0]);
        BeforeInherits(Encoded(i, b[0]), Message(i, b), Encoded(i, a[0]), Message(i, a));
      }
    }
  }

  // ---------- decoding ----------

  /** A number of `scale` digits lies in the interval. */
  ghost predicate Holds(i: Interval, code: nat, scale: nat) {
    scale >= i.scale && i.low * Pow256(scale - i.scale) <= code < (i.low + i.range) * Pow256(scale - i.scale)
  }

  /** As many digits of the number as the interval has. */
  ghost function Shown(i: Interval, code: nat, scale: nat): nat
    requires scale >= i.scale
  {
    DivNonNegative(code, Pow256(scale - i.scale));
    code / Pow256(scale - i.scale)
  }

  lemma DivNonNegative(a: nat, b: nat)
    requires b > 0
    ensures a / b >= 0
  {
  }

  /** Where in a table of `total` a decoder finds the number. */
  ghost function Count(i: Interval, total: nat, code: nat, scale: nat): int
    requires scale >= i.scale && 0 < total <= i.range
  {
    DivPositive(i.range, total);
    (Shown(i, code, scale) - i.low) / (i.range / total)
  }

  lemma DivBetween(a: nat, b: nat, x: nat, p: nat)
    requires p > 0
    ensures a * p <= x < b * p <==> a <= x / p < b
  {
    var q, r := x / p, x % p;
    assert x == q * p + r;
    if a <= q {
      MulMonotone(a, q, p);
    } else {
      BelowMultiple(q, a, r, p);
    }
    if q < b {
      BelowMultiple(q, b, r, p);
    } else {
      MulMonotone(b, q, p);
    }
  }

  lemma HoldsShown(i: Interval, code: nat, scale: nat)
    requires scale >= i.scale
    ensures Holds(i, code, scale) <==> i.low <= Shown(i, code, scale) < i.low + i.range
  {
    DivBetween(i.low, i.low + i.range, code, Pow256(scale - i.scale));
  }

  /** The narrowed interval is the slice: it has exactly the numbers of the interval that the table puts there. */
  lemma NarrowedIsSlice(i: Interval, s: Symbol, c: nat)
    requires ValidSymbol(s, i.range)
    ensures i.range / s.total > 0
    ensures var n := Narrowed(i, s);
            n.low <= c < n.low + n.range <==>
            c >= i.low && s.start <= (c - i.low) / (i.range / s.total) < s.start + s.size
  {
    hide Narrowed;
    var r := i.range / s.total;
    DivPositive(i.range, s.total);
    NarrowedBy(i, s);
    MulNonNegative(s.start, r);
    if c >= i.low {
      DivBetween(s.start, s.start + s.size, c - i.low, r);
      MulDistributes(s.start, s.size, r);
    }
  }

  lemma NarrowedBy(i: Interval, s: Symbol)
    requires s.total > 0
    ensures var r := i.range / s.total;
            Narrowed(i, s) == Interval(i.low + s.start * r, s.size * r, i.scale)
  {
  }

  lemma RenormalisedHolds(i: Interval, code: nat, scale: nat)
    requires 0 < i.range < TWO32 && scale >= Renormalised(i).scale
    ensures Holds(Renormalised(i), code, scale) <==> Holds(i, code, scale)
  {
    hide Renormalised, Pow256;
    RenormalisedIsSame(i);
    var r := Renormalised(i);
    var p, q := Pow256(r.scale - i.scale), Pow256(scale - r.scale);
    Pow256Sum(r.scale - i.scale, scale - r.scale);
    MulAssociative(i.low, p, q);
    MulAssociative(i.low + i.range, p, q);
    MulDistributes(i.low, i.range, p);
  }

  /** What a decoder sees: a number is in the interval after a symbol exactly if it was in the one before, and is
      counted into that symbol's slice. */
  lemma StepDecodes(i: Interval, s: Symbol, code: nat, scale: nat)
    requires ValidSymbol(s, i.range) && Ready(i) && scale >= Encoded(i, s).scale
    ensures scale >= i.scale
    ensures Holds(Encoded(i, s), code, scale) <==>
            Holds(i, code, scale) && s.start <= Count(i, s.total, code, scale) < s.start + s.size
  {
    hide Renormalised, Pow256, Holds, Narrowed, Shown;
    NarrowedIsPositive(i, s);
    NarrowedBy(i, s);
    var n := Narrowed(i, s);
    RenormalisedHolds(n, code, scale);
    HoldsShown(n, code, scale);
    HoldsShown(i, code, scale);
    ShownAlike(i, n, code, scale);
    NarrowedIsSlice(i, s, Shown(i, code, scale));
  }

  lemma ShownAlike(i: Interval, n: Interval, code: nat, scale: nat)
    requires scale >= i.scale == n.scale
    ensures Shown(i, code, scale) == Shown(n, code, scale)
  {
  }

  /** The table that both sides use after the same symbols. */
  type Model = seq<nat> -> seq<Symbol>

  /** A table's slices are valid and apart, in order. */
  ghost predicate ValidTable(t: seq<Symbol>, range: nat) {
    && (forall k :: 0 <= k < |t| ==> ValidSymbol(t[k], range) && t[k].total == t[0].total)
    && (forall j, k :: 0 <= j < k < |t| ==> t[j].start + t[j].size <= t[k].start)
  }

  /** The slice that the count is in; |t| if it is in none. */
  ghost function Find(t: seq<Symbol>, count: int, k: nat): nat
    requires k <= |t|
    decreases |t| - k
  {
    if k == |t| || t[k].start <= count < t[k].start + t[k].size then k else Find(t, count, k + 1)
  }

  lemma {:induction false} FindsSlice(t: seq<Symbol>, range: nat, count: int, k: nat, pick: nat)
    requires ValidTable(t, range) && k <= pick < |t| && t[pick].start <= count < t[pick].start + t[pick].size
    ensures Find(t, count, k) == pick
    decreases |t| - k
  {
    if k < pick {
      FindsSlice(t, range, count, k + 1, pick);
    }
  }

  /** Every pick is a symbol of its table, and the tables are valid for the range. */
  ghost predicate Follows(i: Interval, model: Model, past: seq<nat>, picks: seq<nat>)
    requires Ready(i)
    decreases |picks|
  {
    picks == [] ||
    (var t := model(past);
     ValidTable(t, i.range) && picks[0] < |t| &&
     (EncodedIsNested(i, t[picks[0]]); Follows(Encoded(i, t[picks[0]]), model, past + [picks[0]], picks[1..])))
  }

  /** The interval of the picks. */
  ghost function Final(i: Interval, model: Model, past: seq<nat>, picks: seq<nat>): (r: Interval)
    requires Ready(i) && Follows(i, model, past, picks)
    ensures Ready(r) && r.scale >= i.scale
    decreases |picks|
  {
    if picks == [] then i
    else
      var s := model(past)[picks[0]];
      EncodedIsNested(i, s);
      Final(Encoded(i, s), model, past + [picks[0]], picks[1..])
  }

  /** A decoder with the same tables, for `n` symbols: count, find the slice, narrow as the encoder does. */
  ghost function Decoded(i: Interval, model: Model, past: seq<nat>, code: nat, scale: nat, n: nat): seq<nat>
    requires Ready(i)
    decreases n
  {
    var t := model(past);
    if n == 0 || scale < i.scale || t == [] || !ValidTable(t, i.range) then []
    else
      var pick := Find(t, Count(i, t[0].total, code, scale), 0);
      if pick >= |t| then []
      else
        EncodedIsNested(i, t[pick]);
        [pick] + Decoded(Encoded(i, t[pick]), model, past + [pick], code, scale, n - 1)
  }

  /** Whatever was encoded, and with whatever tables: any number in the final interval decodes to it. */
  lemma {:induction false} DecodesWhatWasEncoded(i: Interval, model: Model, past: seq<nat>, picks: seq<nat>, code: nat,
                                                 scale: nat)
    requires Ready(i) && Follows(i, model, past, picks) && Holds(Final(i, model, past, picks), code, scale)
    ensures Holds(i, code, scale) && Decoded(i, model, past, code, scale, |picks|) == picks
    decreases |picks|
  {
    hide Holds, Encoded, Count, ValidTable;
    if picks != [] {
      var t, pick := model(past), picks[0];
      TableHas(t, i.range, pick);
      EncodedIsNested(i, t[pick]);
      var next := Encoded(i, t[pick]);
      DecodesWhatWasEncoded(next, model, past + [pick], picks[1..], code, scale);
      HeldAtScale(next, code, scale);
      StepDecodes(i, t[pick], code, scale);
      FindsSlice(t, i.range, Count(i, t[0].total, code, scale), 0, pick);
      assert picks == [pick] + picks[1..];
    }
  }

  lemma TableHas(t: seq<Symbol>, range: nat, pick: nat)
    requires ValidTable(t, range) && pick < |t|
    ensures ValidSymbol(t[pick], range) && t[pick].total == t[0].total
  {
  }

  lemma HeldAtScale(i: Interval, code: nat, scale: nat)
    requires Holds(i, code, scale)
    ensures scale >= i.scale
  {
  }

  // ---------- the encoder ----------

  class Encoder {
    // `low` is what has not been shifted out yet; `sent` is what has, carries included.
    var low: nat
    var range: nat
    var sent: nat
    ghost var shifts: nat

    ghost predicate Valid()
      reads this
    {
      TOP_VALUE <= range < TWO32 && low + range <= 2 * TWO32
    }

    /** The interval the encoder stands for, exactly. */
    ghost function Exact(): Interval
      reads this
    {
      Interval(sent * TWO32 + low, range, shifts)
    }

    constructor ()
      ensures Valid() && Exact() == Interval(0, TWO32 - 1, 0)
    {
      low, range, sent, shifts := 0, TWO32 - 1, 0, 0;
    }

    /** Move the top byte of `low`, and its carry, to what has been sent. */
    method ShiftLow()
      requires low < 2 * TWO32
      modifies this`low, this`sent, this`shifts
      ensures sent * TWO32 + low == 256 * old(sent * TWO32 + low)
      ensures low < TWO32 && shifts == old(shifts) + 1
    {
      sent := sent * 256 + low / TOP_VALUE;
      low := (low % TOP_VALUE) * 256;
      shifts := shifts + 1;
    }

    method Encode(start: nat, size: nat, total: nat)
      requires Valid() && ValidSymbol(Symbol(start, size, total), range)
      modifies this
      ensures Valid() && Exact() == Encoded(old(Exact()), Symbol(start, size, total))
    {
      ghost var goal := Encoded(Exact(), Symbol(start, size, total));
      NarrowedIsPositive(Exact(), Symbol(start, size, total));
      range := range / total;
      low := low + start * range;
      range := range * size;
      while range < TOP_VALUE
        invariant 0 < range < TWO32 && low + range <= 2 * TWO32
        invariant Renormalised(Exact()) == goal
        decreases TOP_VALUE - range
      {
        range := range * 256;
        ShiftLow();
      }
    }

    /** Encode symbol after symbol, each from the table that the model has for it. */
    method EncodePicks(model: Model, past: seq<nat>, picks: seq<nat>)
      requires Valid() && Follows(Exact(), model, past, picks)
      modifies this
      ensures Valid() && Exact() == Final(old(Exact()), model, past, picks)
      decreases |picks|
    {
      hide ValidTable, Encoded;
      if picks != [] {
        ghost var before := Exact();
        var s := model(past)[picks[0]];
        TableHas(model(past), range, picks[0]);
        EncodedIsNested(before, s);
        Encode(s.start, s.size, s.total);
        EncodePicks(model, past + [picks[0]], picks[1..]);
      }
    }
  }

  /** From one end to the other: what a fresh encoder has made of any symbols decodes to them. */
  method Transmit(model: Model, picks: seq<nat>) returns (code: nat)
    requires Follows(Interval(0, TWO32 - 1, 0), model, [], picks)
    ensures var whole := Interval(0, TWO32 - 1, 0);
            Decoded(whole, model, [], code, Final(whole, model, [], picks).scale, |picks|) == picks
  {
    hide Decoded, Final;
    var encoder := new Encoder();
    ghost var whole := encoder.Exact();
    encoder.EncodePicks(model, [], picks);
    code := encoder.sent * TWO32 + encoder.low;
    LowIsHeld(encoder.Exact());
    DecodesWhatWasEncoded(whole, model, [], picks, code, encoder.shifts);
  }

  lemma LowIsHeld(i: Interval)
    requires i.range > 0
    ensures Holds(i, i.low, i.scale)
  {
  }
}
