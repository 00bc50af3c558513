/** Numbers in text: the saturating parser of tar headers, and the printer of format strings. */
module Numbers {
  import opened Bytes
  import opened Modular

  predicate IsBlank(c: char) {
    c == ' ' || c == '\t'
  }

  predicate IsDigit(c: char, base: int) {
    0 <= c as int - '0' as int < base
  }

  predicate AllDigits(s: string, base: int) {
    forall i {:trigger s[i]} :: 0 <= i < |s| ==> IsDigit(s[i], base)
  }

  /** How many characters at the front are blanks. */
  ghost function Blanks(s: string): (n: nat)
    ensures n <= |s| && forall i :: 0 <= i < n ==> IsBlank(s[i])
    ensures n < |s| ==> !IsBlank(s[n])
  {
    if s == [] || !IsBlank(s[0]) then 0 else 1 + Blanks(s[1..])
  }

  /** How many characters at the front are digits. */
  ghost function DigitRun(s: string, base: int): (n: nat)
    ensures n <= |s| && AllDigits(s[..n], base)
    ensures n < |s| ==> !IsDigit(s[n], base)
  {
    if s == [] || !IsDigit(s[0], base) then 0 else 1 + DigitRun(s[1..], base)
  }

  /** The number a string of digits denotes, the last digit counting ones. */
  ghost function Value(digits: string, base: nat): (v: int)
    requires AllDigits(digits, base)
    ensures v >= 0
  {
    if digits == [] then 0
    else
      ValueOfFront(digits, base);
      Value(digits[..|digits| - 1], base) * base + (digits[|digits| - 1] as int - '0' as int)
  }

  lemma ValueOfFront(digits: string, base: nat)
    requires digits != [] && AllDigits(digits, base)
    ensures forall v: nat :: v * base + (digits[|digits| - 1] as int - '0' as int) >= 0
  {
    forall v: nat
      ensures v * base + (digits[|digits| - 1] as int - '0' as int) >= 0
    {
      MulNonNegative(v, base);
    }
  }

  function Clamp(x: int): int {
    if x > INT64_MAX then INT64_MAX else if x < INT64_MIN then INT64_MIN else x
  }

  /** A field is blanks, an optional minus sign, and the digits up to the first non-digit. */
  ghost function Negative(s: string): bool {
    var t := s[Blanks(s)..];
    t != [] && t[0] == '-'
  }

  ghost function DigitsOf(s: string, base: nat): (d: string)
    ensures AllDigits(d, base)
  {
    var u := s[Blanks(s) + if Negative(s) then 1 else 0..];
    u[..DigitRun(u, base)]
  }

  /** The number a field says. */
  ghost function Parsed(s: string, base: nat): int {
    var v := Value(DigitsOf(s, base), base);
    Clamp(if Negative(s) then -v else v)
  }

  /** More digits never make a number smaller. */
  lemma {:induction false} ValueGrows(digits: string, n: nat, base: nat)
    requires base >= 1 && n <= |digits| && AllDigits(digits, base)
    ensures Value(digits[..n], base) <= Value(digits, base)
    decreases |digits|
  {
    if n < |digits| {
      var front := digits[..|digits| - 1];
      ValueGrows(front, n, base);
      assert front[..n] == digits[..n];
      MulMonotone(1, base, Value(front, base));
    } else {
      assert digits[..n] == digits;
    }
  }

  /** The accumulation of digits, up to a limit that is `limit * base + lastDigit`. */
  method Accumulate(s: string, start: nat, base: nat, limit: nat, lastDigit: nat) returns (l: nat, overflow: bool)
    requires start <= |s| && 2 <= base <= 10 && lastDigit < base
    ensures var u := s[start..];
            var v := Value(u[..DigitRun(u, base)], base);
            && (overflow <==> v > limit * base + lastDigit)
            && (!overflow ==> l == v)
    ensures l <= limit * base + lastDigit
  {
    hide Value, DigitRun;
    ghost var u := s[start..];
    ghost var run := DigitRun(u, base);
    l := 0;
    var i := start;
    MulNonNegative(limit, base);
    NothingFolded(u[..run], base);
    assert u[..run][..0] == u[..0];
    while i < |s| && IsDigit(s[i], base)
      invariant start <= i <= start + run && l == Value(u[..i - start], base)
      invariant l <= limit * base + lastDigit
      decreases |s| - i
    {
      assert s[i] == u[i - start];
      var digit := DigitOf(s[i]);
      assert u[..run][..i - start] == u[..i - start] && u[..run][..i + 1 - start] == u[..i + 1 - start];
      NextPrefix(u[..run], i - start, base);
      LimitCheck(l, digit, base, limit, lastDigit);
      if l > limit || (l == limit && digit > lastDigit) {
        ValueGrows(u[..run], i + 1 - start, base);
        return l, true;
      }
      l := l * base + digit;
      i := i + 1;
    }
    overflow := false;
  }

  /** The test against the limit and the last digit is the test against the maximum. */
  lemma LimitCheck(l: nat, digit: nat, base: nat, limit: nat, lastDigit: nat)
    requires 2 <= base && digit < base && lastDigit < base
    ensures l * base + digit > limit * base + lastDigit <==> l > limit || (l == limit && digit > lastDigit)
  {
    if l > limit {
      MulMonotone(limit + 1, l, base);
      assert (limit + 1) * base == limit * base + base;
    } else if l < limit {
      MulMonotone(l + 1, limit, base);
      assert (l + 1) * base == l * base + base;
    }
  }

  lemma NegativeTurn(l: int, digit: nat, base: nat)
    requires l < 0 && digit < base
    ensures l * base + digit < 0
  {
    MulMonotone(1, -l, base);
    assert l * base == -(-l * base);
  }

  /** The guard of the loop, for a limit computed from the largest value allowed. */
  lemma GuardExactly(l: int, digit: nat, base: nat, max: nat)
    requires 2 <= base && digit < base
    ensures l > max / base || (l == max / base && digit > max % base) <==> l * base + digit > max
  {
    QuotientAndRest(max, base);
    if l >= 0 {
      LimitCheck(l, digit, base, max / base, max % base);
    } else {
      NegativeTurn(l, digit, base);
    }
  }

  method TarAtolBaseN(s: string, base: nat) returns (r: int)
    requires 2 <= base <= 10
    ensures r == Parsed(s, base)
  {
    hide Value, DigitRun;
    var maxval, limit, lastDigitLimit := INT64_MAX, INT64_MAX / base, INT64_MAX % base;
    var p := SkipBlanks(s);
    ghost var t := s[p..];
    var sign := 1;
    QuotientAndRest(INT64_MAX, base);
    if p < |s| && s[p] == '-' {
      sign := -1;
      p := p + 1;
      maxval := INT64_MIN;
      // C truncates towards zero, so -(INT64_MIN / base) is a quotient of non-negative numbers.
      limit := TWO63 / base;
      lastDigitLimit := TWO63 % base;
      QuotientAndRest(TWO63, base);
      assert t[1..] == s[p..];
    }
    var l, overflow := Accumulate(s, p, base, limit, lastDigitLimit);
    if overflow {
      return maxval;
    }
    var magnitude: int := l;
    return if sign < 0 then -magnitude else magnitude;
  }

  method SkipBlanks(s: string) returns (p: nat)
    ensures p == Blanks(s)
  {
    p := 0;
    while p < |s| && (s[p] == ' ' || s[p] == '\t')
      invariant p <= Blanks(s)
    {
      p := p + 1;
    }
  }

  lemma QuotientAndRest(x: nat, base: nat)
    requires base > 0
    ensures (x / base) * base + x % base == x && x % base < base
  {
  }

  // ---------- the accumulator as an int64 that wraps around ----------

  /** An integer as 64 bits hold it. */
  function Wrap64(x: int): (r: int)
    ensures INT64_MIN <= r <= INT64_MAX
    ensures INT64_MIN <= x <= INT64_MAX ==> r == x
  {
    (x + TWO63) % TWO64 - TWO63
  }

  function DigitOf(c: char): int {
    c as int - '0' as int
  }

  /** How accumulation ends: with a sum, or full at the limit; and whether a sum has wrapped around. */
  datatype Folded = Folded(sum: int, full: bool, wrapped: bool)

  /** What the loop makes of the remaining digits. */
  ghost function Fold(l: int, digits: string, base: nat, limit: nat, lastDigit: nat): Folded
    requires AllDigits(digits, base)
    decreases |digits|
  {
    if digits == [] then Folded(l, false, false)
    else if l > limit || (l == limit && DigitOf(digits[0]) > lastDigit) then Folded(l, true, false)
    else
      var x := l * base + DigitOf(digits[0]);
      var rest := Fold(Wrap64(x), digits[1..], base, limit, lastDigit);
      rest.(wrapped := rest.wrapped || x != Wrap64(x))
  }

  /** The largest magnitude that the sign allows, and the accumulation of the field up to it. */
  function MaxMagnitude(negative: bool): nat {
    if negative then TWO63 else INT64_MAX
  }

  ghost function FoldField(s: string, base: nat): Folded
    requires base > 0
  {
    var max := MaxMagnitude(Negative(s));
    Fold(0, DigitsOf(s, base), base, max / base, max % base)
  }

  /** What the field parses to in 64 bits. */
  ghost function ParsedInt64(s: string, base: nat): int
    requires base > 0
  {
    var f := FoldField(s, base);
    if f.full then (if Negative(s) then INT64_MIN else INT64_MAX)
    else if Negative(s) then Wrap64(-f.sum)
    else f.sum
  }

  /** Some prefix of the digits, longer than `n`, denotes exactly 2^63. */
  ghost predicate Hits(digits: string, n: nat, base: nat)
    requires AllDigits(digits, base)
  {
    exists k :: n < k <= |digits| && Value(digits[..k], base) == TWO63
  }

  /** One turn of the accumulation, its guard being the comparison with the maximum. */
  lemma FoldTurn(l: int, digits: string, base: nat, max: nat)
    requires 2 <= base <= 10 && AllDigits(digits, base) && digits != []
    ensures var x := l * base + DigitOf(digits[0]);
            var rest := Fold(Wrap64(x), digits[1..], base, max / base, max % base);
            Fold(l, digits, base, max / base, max % base) ==
            if x > max then Folded(l, true, false) else rest.(wrapped := rest.wrapped || x != Wrap64(x))
  {
    GuardExactly(l, DigitOf(digits[0]), base, max);
  }

  lemma WrapsAround(x: nat)
    requires x <= TWO63
    ensures Wrap64(x) == if x == TWO63 then INT64_MIN else x
  {
  }

  /** From a prefix of the digits that 64 bits hold, the sum wraps exactly if some longer prefix hits 2^63 below
      a limit that allows it; otherwise the sum, and where it is full, are those of unbounded integers. */
  lemma {:induction false} FoldExactly(digits: string, n: nat, base: nat, max: nat)
    requires 2 <= base <= 10 && AllDigits(digits, base) && n <= |digits|
    requires max == INT64_MAX || max == TWO63
    requires Value(digits[..n], base) <= INT64_MAX
    ensures var f := Fold(Value(digits[..n], base), digits[n..], base, max / base, max % base);
            && (f.wrapped <==> max == TWO63 && Hits(digits, n, base))
            && (!f.wrapped ==> (f.full <==> Value(digits, base) > max))
            && (!f.wrapped && !f.full ==> f.sum == Value(digits, base))
    decreases |digits| - n
  {
    hide Fold, Value, Wrap64, Hits;
    if n == |digits| {
      assert digits[..n] == digits && digits[n..] == [];
      FoldEnds(digits, base, max);
    } else {
      var rest := digits[n..];
      NextPrefix(digits, n, base);
      HitsNowOrLater(digits, n, base);
      PrefixesGrow(digits, n + 1, |digits|, base);
      assert rest[0] == digits[n] && rest[1..] == digits[n + 1..] && digits[..|digits|] == digits;
      FoldTurn(Value(digits[..n], base), rest, base, max);
      var next := Value(digits[..n + 1], base);
      if next <= TWO63 {
        WrapsAround(next);
      }
      if next <= INT64_MAX {
        FoldExactly(digits, n + 1, base, max);
      }
    }
  }

  lemma FoldEnds(digits: string, base: nat, max: nat)
    requires base > 0 && AllDigits(digits, base)
    ensures !Hits(digits, |digits|, base)
    ensures Fold(Value(digits, base), [], base, max / base, max % base) == Folded(Value(digits, base), false, false)
  {
  }

  lemma HitsNowOrLater(digits: string, n: nat, base: nat)
    requires base >= 1 && AllDigits(digits, base) && n < |digits|
    ensures Hits(digits, n, base) <==> Value(digits[..n + 1], base) == TWO63 || Hits(digits, n + 1, base)
    ensures Value(digits[..n + 1], base) > TWO63 ==> !Hits(digits, n, base)
  {
    if Hits(digits, n, base) {
      var k :| n < k <= |digits| && Value(digits[..k], base) == TWO63;
      PrefixesGrow(digits, n + 1, k, base);
    }
  }

  lemma NextPrefix(digits: string, n: nat, base: nat)
    requires AllDigits(digits, base) && n < |digits|
    ensures Value(digits[..n + 1], base) == Value(digits[..n], base) * base + DigitOf(digits[n])
  {
    assert digits[..n + 1][..n] == digits[..n];
  }

  lemma PrefixesGrow(digits: string, n: nat, k: nat, base: nat)
    requires base >= 1 && n <= k <= |digits| && AllDigits(digits, base)
    ensures Value(digits[..n], base) <= Value(digits[..k], base)
  {
    ValueGrows(digits[..k], n, base);
    assert digits[..k][..n] == digits[..n];
  }

  /** The accumulator never wraps around exactly when the field is not negative, or none of its prefixes of digits
      is 2^63; and then the field is parsed as it is with unbounded integers. */
  lemma NeverWrapsExactly(s: string, base: nat)
    requires 2 <= base <= 10
    ensures !FoldField(s, base).wrapped <==> !Negative(s) || !Hits(DigitsOf(s, base), 0, base)
    ensures !FoldField(s, base).wrapped ==> ParsedInt64(s, base) == Parsed(s, base)
  {
    var digits := DigitsOf(s, base);
    FoldExactly(digits, 0, base, MaxMagnitude(Negative(s)));
    NothingFolded(digits, base);
  }

  /** In an even base, once the sum has hit 2^63 the digits after it are read as if nothing had come before. */
  lemma StartsAgain(digits: string, base: nat)
    requires 2 <= base <= 10 && base % 2 == 0 && AllDigits(digits, base) && digits != []
    ensures var limit, last := TWO63 / base, TWO63 % base;
            var f, g := Fold(INT64_MIN, digits, base, limit, last), Fold(0, digits, base, limit, last);
            f.sum == g.sum && f.full == g.full
  {
    var half, d := base / 2, DigitOf(digits[0]);
    assert INT64_MIN * base + d == d - half * TWO64;
    ModShift(d + TWO63, -half, TWO64);
    LimitIsPositive(base);
  }

  lemma LimitIsPositive(base: nat)
    requires 0 < base <= 10
    ensures TWO63 / base > 0
  {
  }

  /** On the way to 2^63 the sum stays below it up to the last digit. */
  lemma OnTheWay(front: string, n: nat, base: nat)
    requires 2 <= base <= 10 && AllDigits(front, base) && n < |front| && Value(front, base) == TWO63
    ensures Value(front[..n + 1], base) == Value(front[..n], base) * base + DigitOf(front[n])
    ensures if n + 1 < |front| then Value(front[..n + 1], base) <= INT64_MAX else Value(front[..n + 1], base) == TWO63
  {
    hide Value;
    NextPrefix(front, n, base);
    assert front[..|front|] == front;
    if n + 1 < |front| {
      var next := Value(front[..n + 1], base);
      NextPrefix(front, n + 1, base);
      PrefixesGrow(front, n + 2, |front|, base);
      MulMonotone(2, base, next);
    }
  }

  /** Digits that denote 2^63 leave the sum at the least int64, whatever digits follow. */
  lemma {:induction false} FoldHits(front: string, n: nat, digits: string, base: nat)
    requires 2 <= base <= 10 && AllDigits(front, base) && AllDigits(digits, base) && n < |front|
    requires Value(front, base) == TWO63 && Value(front[..n], base) <= INT64_MAX
    ensures var limit, last := TWO63 / base, TWO63 % base;
            var f := Fold(Value(front[..n], base), front[n..] + digits, base, limit, last);
            var g := Fold(INT64_MIN, digits, base, limit, last);
            f.sum == g.sum && f.full == g.full
    decreases |front| - n
  {
    hide Fold, Value, Wrap64;
    var rest := front[n..] + digits;
    OnTheWay(front, n, base);
    assert rest[0] == front[n] && rest[1..] == front[n + 1..] + digits;
    FoldTurn(Value(front[..n], base), rest, base, TWO63);
    WrapsAround(Value(front[..n + 1], base));
    if n + 1 < |front| {
      FoldHits(front, n + 1, digits, base);
    } else {
      assert front[n + 1..] + digits == digits;
    }
  }

  lemma FieldOfDigits(digits: string, base: nat)
    requires base <= 10 && AllDigits(digits, base)
    ensures Negative("-" + digits) && DigitsOf("-" + digits, base) == digits
  {
    var s := "-" + digits;
    assert s[0..] == s && s[1..] == digits;
    assert digits + [] == digits;
    RunOfDigits(digits, [], base);
  }

  lemma NothingFolded(digits: string, base: nat)
    requires AllDigits(digits, base)
    ensures digits[0..] == digits && Value(digits[..0], base) == 0
  {
  }

  /** A negative field of an even base whose digits hit 2^63 loses them: it is parsed as the digits after them. */
  lemma LosesWhatWasBefore(front: string, digits: string, base: nat)
    requires 2 <= base <= 10 && base % 2 == 0 && AllDigits(front, base) && AllDigits(digits, base) && digits != []
    requires Value(front, base) == TWO63
    ensures ParsedInt64("-" + (front + digits), base) == ParsedInt64("-" + digits, base)
    ensures Parsed("-" + (front + digits), base) == INT64_MIN
  {
    hide Fold, Negative, DigitsOf, Value;
    var all := front + digits;
    FieldOfDigits(all, base);
    FieldOfDigits(digits, base);
    NothingFolded(front, base);
    assert front[..0] == [];
    assert all[..|front|] == front && all[|front|..] == digits;
    CutAtHit(all, |front|, base);
  }

  /** Accumulating digits that hit 2^63 at `k` and go on is accumulating those after `k`. */
  lemma CutAtHit(digits: string, k: nat, base: nat)
    requires 2 <= base <= 10 && base % 2 == 0 && AllDigits(digits, base)
    requires 0 < k < |digits| && Value(digits[..k], base) == TWO63
    ensures var limit, last := TWO63 / base, TWO63 % base;
            var f, g := Fold(0, digits, base, limit, last), Fold(0, digits[k..], base, limit, last);
            f.sum == g.sum && f.full == g.full
    ensures Value(digits, base) >= TWO63
  {
    hide Fold, Value;
    NothingFolded(digits[..k], base);
    FoldHits(digits[..k], 0, digits[k..], base);
    StartsAgain(digits[k..], base);
    PrefixesGrow(digits, k, |digits|, base);
    assert digits[..k] + digits[k..] == digits && digits[..|digits|] == digits;
  }

  /** What is left of the digits when they are cut after each prefix that is 2^63 and has digits after it. */
  ghost function LastPiece(digits: string, base: nat): (r: string)
    requires AllDigits(digits, base)
    ensures AllDigits(r, base)
    ensures forall k :: 0 < k < |r| ==> Value(r[..k], base) != TWO63
    decreases |digits|
  {
    if k :| 0 < k < |digits| && Value(digits[..k], base) == TWO63 then LastPiece(digits[k..], base) else digits
  }

  /** No two prefixes are 2^63, so there is only one way to cut. */
  lemma OneHit(digits: string, k: nat, k': nat, base: nat)
    requires 2 <= base <= 10 && AllDigits(digits, base) && k < k' <= |digits|
    requires Value(digits[..k], base) == TWO63
    ensures Value(digits[..k'], base) != TWO63
  {
    hide Value;
    NextPrefix(digits, k, base);
    PrefixesGrow(digits, k + 1, k', base);
    MulMonotone(2, base, TWO63);
  }

  lemma CutOnce(digits: string, k: nat, base: nat)
    requires 2 <= base <= 10 && AllDigits(digits, base)
    requires 0 < k < |digits| && Value(digits[..k], base) == TWO63
    ensures LastPiece(digits, base) == LastPiece(digits[k..], base)
  {
    hide Value;
    forall k' | 0 < k' < |digits| && Value(digits[..k'], base) == TWO63
      ensures k' == k
    {
      if k < k' {
        OneHit(digits, k, k', base);
      } else if k' < k {
        OneHit(digits, k', k, base);
      }
    }
  }

  lemma {:induction false} FoldsAsLastPiece(digits: string, base: nat)
    requires 2 <= base <= 10 && base % 2 == 0 && AllDigits(digits, base)
    ensures var limit, last := TWO63 / base, TWO63 % base;
            var f, g := Fold(0, digits, base, limit, last), Fold(0, LastPiece(digits, base), base, limit, last);
            f.sum == g.sum && f.full == g.full
    ensures LastPiece(digits, base) != digits ==> Value(digits, base) >= TWO63
    decreases |digits|
  {
    hide Fold, Value, LastPiece;
    if k :| 0 < k < |digits| && Value(digits[..k], base) == TWO63 {
      CutAtHit(digits, k, base);
      CutOnce(digits, k, base);
      FoldsAsLastPiece(digits[k..], base);
    } else {
      NothingToCut(digits, base);
    }
  }

  lemma NothingToCut(digits: string, base: nat)
    requires AllDigits(digits, base)
    requires forall k :: 0 < k < |digits| ==> Value(digits[..k], base) != TWO63
    ensures LastPiece(digits, base) == digits
  {
  }

  /** A piece that cannot be cut is accumulated right, be it 2^63 itself. */
  lemma PieceIsRight(piece: string, base: nat)
    requires 2 <= base <= 10 && AllDigits(piece, base)
    requires forall k :: 0 < k < |piece| ==> Value(piece[..k], base) != TWO63
    ensures var f := Fold(0, piece, base, TWO63 / base, TWO63 % base);
            (if f.full then INT64_MIN else Wrap64(-f.sum)) == Clamp(-Value(piece, base))
  {
    hide Fold, Value;
    NothingFolded(piece, base);
    FoldExactly(piece, 0, base, TWO63);
    assert piece[..|piece|] == piece;
    if Hits(piece, 0, base) {
      assert Value(piece, base) == TWO63;
      FoldHits(piece, 0, [], base);
      EndsAtHit(piece, base);
      WrapsAround(-INT64_MIN);
    } else {
      assert piece != [] ==> Value(piece[..|piece|], base) != TWO63;
    }
  }

  lemma EndsAtHit(piece: string, base: nat)
    requires base > 0 && AllDigits(piece, base)
    ensures piece + [] == piece
    ensures Fold(INT64_MIN, [], base, TWO63 / base, TWO63 % base) == Folded(INT64_MIN, false, false)
  {
  }

  /** A negative field of an even base is parsed as the digits after the last prefix of 2^63 that has any after it. So
      the result is right exactly if no proper prefix is 2^63, or what comes after the last one is not below it. */
  lemma ParsedAsLastPiece(s: string, base: nat)
    requires 2 <= base <= 10 && base % 2 == 0
    ensures var digits := DigitsOf(s, base);
            var piece := LastPiece(digits, base);
            && (Negative(s) ==> ParsedInt64(s, base) == Clamp(-Value(piece, base)))
            && (ParsedInt64(s, base) == Parsed(s, base) <==>
                !Negative(s) || piece == digits || Value(piece, base) >= TWO63)
  {
    hide Fold, Value, LastPiece, Negative, DigitsOf;
    var digits := DigitsOf(s, base);
    if Negative(s) {
      FoldsAsLastPiece(digits, base);
      PieceIsRight(LastPiece(digits, base), base);
    } else {
      NeverWrapsExactly(s, base);
    }
  }

  /** The guard stops the accumulation up to 2^63 at digit `k`, if it has come so far: the sum so far is what 64 bits
      hold of the number. */
  ghost predicate StopsAt(digits: string, k: nat, base: nat)
    requires AllDigits(digits, base) && k < |digits|
  {
    Wrap64(Value(digits[..k], base)) * base + DigitOf(digits[k]) > TWO63
  }

  ghost predicate Stops(digits: string, n: nat, base: nat)
    requires AllDigits(digits, base)
  {
    exists k :: n <= k < |digits| && StopsAt(digits, k, base)
  }

  lemma StopsNowOrLater(digits: string, n: nat, base: nat)
    requires AllDigits(digits, base) && n < |digits|
    ensures Stops(digits, n, base) <==> StopsAt(digits, n, base) || Stops(digits, n + 1, base)
  {
    hide StopsAt;
  }

  /** Sums that wrap agree with the number modulo 2^64. */
  lemma WrapTurn(v: int, base: nat, digit: int)
    ensures Wrap64(Wrap64(v) * base + digit) == Wrap64(v * base + digit)
  {
    var q := (v + TWO63) / TWO64;
    assert Wrap64(v) == v - q * TWO64;
    assert (v - q * TWO64) * base == v * base + (-q * base) * TWO64;
    ModShift(v * base + digit + TWO63, -q * base, TWO64);
  }

  /** Accumulation from any prefix on, in any base: it is full exactly if the guard stops it somewhere, and otherwise
      the sum is what 64 bits hold of the number. */
  lemma {:induction false} FoldWraps(digits: string, n: nat, base: nat)
    requires 2 <= base <= 10 && AllDigits(digits, base) && n <= |digits|
    ensures var f := Fold(Wrap64(Value(digits[..n], base)), digits[n..], base, TWO63 / base, TWO63 % base);
            && (f.full <==> Stops(digits, n, base))
            && (!f.full ==> f.sum == Wrap64(Value(digits, base)))
    decreases |digits| - n
  {
    hide Fold, Value, Wrap64, Stops;
    if n == |digits| {
      assert digits[..n] == digits && digits[n..] == [];
      NeverStops(digits, base);
    } else {
      var v, rest := Value(digits[..n], base), digits[n..];
      assert rest[0] == digits[n] && rest[1..] == digits[n + 1..];
      FoldTurn(Wrap64(v), rest, base, TWO63);
      StopsNowOrLater(digits, n, base);
      NextPrefix(digits, n, base);
      WrapTurn(v, base, DigitOf(digits[n]));
      FoldWraps(digits, n + 1, base);
    }
  }

  lemma NeverStops(digits: string, base: nat)
    requires base > 0 && AllDigits(digits, base)
    ensures !Stops(digits, |digits|, base)
    ensures forall l :: Fold(l, [], base, TWO63 / base, TWO63 % base) == Folded(l, false, false)
  {
  }

  /** What is stopped is above 2^63. */
  lemma StoppedIsLarge(digits: string, k: nat, base: nat)
    requires 2 <= base <= 10 && AllDigits(digits, base) && k < |digits| && StopsAt(digits, k, base)
    ensures Value(digits, base) > TWO63
  {
    hide Value, Wrap64;
    var v := Value(digits[..k], base);
    NextPrefix(digits, k, base);
    PrefixesGrow(digits, k + 1, |digits|, base);
    assert digits[..|digits|] == digits;
    WrapShrinks(v);
    if Wrap64(v) < 0 {
      NegativeTurn(Wrap64(v), DigitOf(digits[k]), base);
      assert false;
    }
    MulMonotone(Wrap64(v), v, base);
  }

  lemma WrapShrinks(v: nat)
    ensures Wrap64(v) <= v
  {
  }

  /** 64 bits hold the negation of a number, or its clamping, exactly for the numbers up to 2^63 and those congruent
      to it. */
  lemma NegationExactly(v: int)
    requires v >= 0
    ensures Wrap64(-Wrap64(v)) == Clamp(-v) <==> v <= TWO63 || v % TWO64 == TWO63
  {
    var q, r := (v + TWO63) / TWO64, v % TWO64;
    assert Wrap64(v) == v - q * TWO64;
    ModShift(TWO63 - v, q, TWO64);
    assert TWO63 - v == TWO63 - r + (-(v / TWO64)) * TWO64;
    ModShift(TWO63 - r, -(v / TWO64), TWO64);
  }

  /** In any base: the field is parsed right exactly if it is not negative, or the guard stops it, or its digits denote
      at most 2^63 or a number congruent to that modulo 2^64. */
  lemma ParsedRightExactly(s: string, base: nat)
    requires 2 <= base <= 10
    ensures var digits := DigitsOf(s, base);
            var v := Value(digits, base);
            ParsedInt64(s, base) == Parsed(s, base) <==>
            !Negative(s) || Stops(digits, 0, base) || v <= TWO63 || v % TWO64 == TWO63
  {
    hide Fold, Value, Negative, DigitsOf, StopsAt, Wrap64;
    var digits := DigitsOf(s, base);
    if Negative(s) {
      NothingFolded(digits, base);
      FoldWraps(digits, 0, base);
      WrapsAround(0);
      if k :| 0 <= k < |digits| && StopsAt(digits, k, base) {
        StoppedIsLarge(digits, k, base);
      } else {
        NegationExactly(Value(digits, base));
      }
    } else {
      NeverWrapsExactly(s, base);
    }
  }

  function Noughts(n: nat): (s: string)
    ensures |s| == n
  {
    seq(n, _ => '0')
  }

  lemma {:induction false} OctalPower(n: nat)
    ensures AllDigits("1" + Noughts(n), 8) && Value("1" + Noughts(n), 8) == Pow2(3 * n)
  {
    if n == 0 {
      assert "1" + Noughts(0) == [] + ['1'];
      LastDigit([], '1', 8);
    } else {
      OctalPower(n - 1);
      assert "1" + Noughts(n) == ("1" + Noughts(n - 1)) + ['0'];
      LastDigit("1" + Noughts(n - 1), '0', 8);
      EightTimes(3 * n - 3);
    }
  }

  lemma EightTimes(n: nat)
    ensures Pow2(n + 3) == 8 * Pow2(n)
  {
    assert Pow2(n + 3) == 2 * Pow2(n + 2) && Pow2(n + 2) == 2 * Pow2(n + 1);
  }

  /** So an octal field of a one, 21 noughts and a seven, which is far below the least int64, is parsed as -7. */
  lemma WrappedField(front: string)
    requires front == "1" + Noughts(21)
    ensures ParsedInt64("-" + (front + "7"), 8) == -7 && Parsed("-" + (front + "7"), 8) == INT64_MIN
  {
    OctalPower(21);
    TwoTo63();
    LosesWhatWasBefore(front, "7", 8);
    OneDigit('7', 8);
  }

  lemma TwoTo63()
    ensures Pow2(63) == TWO63
  {
    assert Pow2(5) == 0x20 && Pow2(10) == 0x400 && Pow2(15) == 0x8000 && Pow2(21) == 0x20_0000;
    Pow2Sum(21, 21);
    Pow2Sum(42, 21);
  }

  lemma OneDigit(c: char, base: nat)
    requires 2 <= base <= 10 && IsDigit(c, base)
    ensures ParsedInt64("-" + [c], base) == -DigitOf(c)
  {
    FieldOfDigits([c], base);
    LimitIsPositive(base);
    assert [c][1..] == [] && 0 * base + DigitOf(c) == DigitOf(c);
    assert Fold(0, [c], base, TWO63 / base, TWO63 % base) == Folded(DigitOf(c), false, false);
  }

  method TarAtolInt64(s: string, base: nat) returns (r: int)
    requires 2 <= base <= 10
    ensures r == ParsedInt64(s, base)
  {
    var maxval: int, max := INT64_MAX, MaxMagnitude(false);
    var p := SkipBlanks(s);
    ghost var t := s[p..];
    var sign := 1;
    if p < |s| && s[p] == '-' {
      sign := -1;
      p := p + 1;
      maxval, max := INT64_MIN, MaxMagnitude(true);
    }
    var l, full := AccumulateInt64(s, p, base, max / base, max % base);
    if full {
      return maxval;
    }
    return if sign < 0 then Wrap64(-l) else l;
  }

  method AccumulateInt64(s: string, start: nat, base: nat, limit: nat, lastDigit: nat) returns (l: int, full: bool)
    requires start <= |s|
    ensures var u := s[start..];
            var f := Fold(0, u[..DigitRun(u, base)], base, limit, lastDigit);
            l == f.sum && full == f.full
  {
    ghost var u := s[start..];
    ghost var run := u[..DigitRun(u, base)];
    ghost var goal := Fold(0, run, base, limit, lastDigit);
    l := 0;
    var i := start;
    assert run[0..] == run;
    while i < |s| && IsDigit(s[i], base)
      invariant start <= i <= start + |run|
      invariant var f := Fold(l, run[i - start..], base, limit, lastDigit); f.sum == goal.sum && f.full == goal.full
      decreases |s| - i
    {
      assert s[i] == u[i - start];
      ghost var rest := run[i - start..];
      assert rest[0] == s[i] && rest[1..] == run[i + 1 - start..];
      var digit := DigitOf(s[i]);
      if l > limit || (l == limit && digit > lastDigit) {
        return l, true;
      }
      l := Wrap64(l * base + digit);
      i := i + 1;
    }
    assert run[i - start..] == [];
    full := false;
  }

  // ---------- printing ----------

  const DIGITS := "0123456789abcdef"

  /** The digits of `d`, most significant first. */
  ghost function Digits(d: nat, base: nat): (s: string)
    requires 2 <= base <= 16
    ensures s != []
  {
    (if d >= base then Digits(d / base, base) else []) + [DIGITS[d % base]]
  }

  class ArchiveString {
    var s: string

    constructor ()
      ensures s == ""
    {
      s := "";
    }

    method AppendUint(d: nat, base: nat)
      requires 2 <= base <= 16
      modifies this
      ensures s == old(s) + Digits(d, base)
      decreases d
    {
      if d >= base {
        AppendUint(d / base, base);
      }
      s := s + [DIGITS[d % base]];
    }
  }

  lemma {:induction false} DigitsAreDigits(d: nat, base: nat)
    requires 2 <= base <= 10
    ensures AllDigits(Digits(d, base), base)
    ensures d > 0 ==> Digits(d, base)[0] != '0'
  {
    hide Digits;
    DigitsUnfold(d, base);
    DigitIsDigit(d % base, base);
    if d >= base {
      DivPositive(d, base);
      DigitsAreDigits(d / base, base);
    } else {
      SmallNumber(d, base);
    }
  }

  /** Printing in a base up to ten and reading the digits back gives the number. */
  lemma {:induction false} DigitsDenote(d: nat, base: nat)
    requires 2 <= base <= 10
    ensures AllDigits(Digits(d, base), base) && Value(Digits(d, base), base) == d
  {
    hide Value, AllDigits, Digits;
    DigitsAreDigits(d, base);
    DigitsUnfold(d, base);
    if d >= base {
      DigitsDenote(d / base, base);
      DigitsJoin(d, base, Digits(d / base, base));
    } else {
      SmallNumber(d, base);
      NoDigits(base);
      DigitsJoin(d, base, []);
    }
  }

  lemma DivPositive(d: nat, base: nat)
    requires 0 < base <= d
    ensures d / base > 0
  {
  }

  lemma DigitsUnfold(d: nat, base: nat)
    requires 2 <= base <= 16
    ensures Digits(d, base) == (if d >= base then Digits(d / base, base) else []) + [DIGITS[d % base]]
  {
  }

  lemma NoDigits(base: nat)
    ensures AllDigits([], base) && Value([], base) == 0
  {
  }

  lemma SmallNumber(d: nat, base: nat)
    requires d < base
    ensures d / base == 0 && d % base == d
  {
    ModUnique(d, 0, d, base);
  }

  lemma DigitsJoin(d: nat, base: nat, front: string)
    requires 2 <= base <= 10 && AllDigits(front, base) && Value(front, base) == d / base
    ensures AllDigits(front + [DIGITS[d % base]], base) && Value(front + [DIGITS[d % base]], base) == d
  {
    QuotientAndRest(d, base);
    DigitIsDigit(d % base, base);
    LastDigit(front, DIGITS[d % base], base);
  }

  lemma DigitIsDigit(r: nat, base: nat)
    requires r < base <= 10
    ensures IsDigit(DIGITS[r], base) && DIGITS[r] as int - '0' as int == r
  {
  }

  lemma LastDigit(front: string, last: char, base: nat)
    requires AllDigits(front, base) && IsDigit(last, base)
    ensures AllDigits(front + [last], base)
    ensures Value(front + [last], base) == Value(front, base) * base + (last as int - '0' as int)
  {
    assert (front + [last])[..|front|] == front;
  }

  lemma {:induction false} RunOfDigits(digits: string, after: string, base: nat)
    requires AllDigits(digits, base)
    requires after != [] ==> !IsDigit(after[0], base)
    ensures DigitRun(digits + after, base) == |digits|
  {
    if digits == [] {
      assert digits + after == after;
    } else {
      RunOfDigits(digits[1..], after, base);
      assert (digits + after)[1..] == digits[1..] + after;
    }
  }

  /** Parsing what was printed, whatever follows that is no digit, gives the number back, or the
      largest int64 if it does not fit. */
  lemma PrintThenParse(d: nat, base: nat, after: string)
    requires 2 <= base <= 10
    requires after != [] ==> !IsDigit(after[0], base)
    ensures Parsed(Digits(d, base) + after, base) == (if d <= INT64_MAX then d else INT64_MAX)
    ensures ParsedInt64(Digits(d, base) + after, base) == Parsed(Digits(d, base) + after, base)
  {
    hide Digits, Value, Fold, DigitRun;
    var digits := Digits(d, base);
    var s := digits + after;
    DigitsDenote(d, base);
    FieldStartsWithDigit(digits, after, base);
    RunOfDigits(digits, after, base);
    assert s[..|digits|] == digits;
    NeverWrapsExactly(s, base);
  }

  lemma FieldStartsWithDigit(digits: string, after: string, base: nat)
    requires base <= 10 && digits != [] && AllDigits(digits, base)
    ensures var s := digits + after; Blanks(s) == 0 && !Negative(s) && DigitsOf(s, base) == s[..DigitRun(s, base)]
  {
    var s := digits + after;
    assert s[0] == digits[0] && IsDigit(s[0], base);
    assert !IsBlank(s[0]) && s[0..] == s;
  }

  lemma {:induction false} BlanksInFront(blanks: string, rest: string)
    requires forall i :: 0 <= i < |blanks| ==> blanks[i] == ' ' || blanks[i] == '\t'
    requires rest != [] ==> rest[0] != ' ' && rest[0] != '\t'
    ensures Blanks(blanks + rest) == |blanks|
  {
    if blanks == [] {
      assert blanks + rest == rest;
    } else {
      assert (blanks + rest)[0] == blanks[0] && (blanks + rest)[1..] == blanks[1..] + rest;
      BlanksInFront(blanks[1..], rest);
    }
  }

  /** A field as a writer may lay it out: blanks and tabs, perhaps a minus sign, some digits, and what is no digit. */
  lemma FieldIsRead(blanks: string, negative: bool, digits: string, after: string, base: nat)
    requires 2 <= base <= 10 && AllDigits(digits, base) && (after != [] ==> !IsDigit(after[0], base))
    requires forall i :: 0 <= i < |blanks| ==> blanks[i] == ' ' || blanks[i] == '\t'
    requires !negative && digits == [] && after != [] ==> after[0] != ' ' && after[0] != '\t' && after[0] != '-'
    ensures var s := blanks + ((if negative then "-" else "") + (digits + after));
            Negative(s) == negative && DigitsOf(s, base) == digits
  {
    var t := (if negative then "-" else "") + (digits + after);
    var s := blanks + t;
    assert digits != [] ==> IsDigit(digits[0], base) && (digits + after)[0] == digits[0];
    assert digits == [] ==> digits + after == after;
    BlanksInFront(blanks, t);
    assert s[|blanks|..] == t;
    RunOfDigits(digits, after, base);
    assert s[|blanks| + if negative then 1 else 0..] == digits + after;
    assert (digits + after)[..|digits|] == digits;
  }

  /** A signed number, printed behind any blanks and in front of anything, is read back, or the nearest int64 if it does
      not fit; in 64 bits as well, but for negative numbers below the least int64. */
  lemma SignedComesBack(blanks: string, negative: bool, d: int, after: string, base: nat)
    requires d >= 0 && 2 <= base <= 10
    requires after != [] ==> after[0] < '0' || after[0] as int >= '0' as int + base
    requires forall i :: 0 <= i < |blanks| ==> blanks[i] == ' ' || blanks[i] == '\t'
    ensures var s := blanks + ((if negative then "-" else "") + (Digits(d, base) + after));
            && Parsed(s, base) ==
               (if negative then (if d <= 0x8000_0000_0000_0000 then -d else -0x8000_0000_0000_0000)
                else if d <= 0x7fff_ffff_ffff_ffff then d else 0x7fff_ffff_ffff_ffff)
            && (!negative || d <= 0x8000_0000_0000_0000 ==> ParsedInt64(s, base) == Parsed(s, base))
  {
    hide Digits, Value, Fold, Negative, DigitsOf;
    var digits := Digits(d, base);
    var s := blanks + ((if negative then "-" else "") + (digits + after));
    DigitsDenote(d, base);
    FieldIsRead(blanks, negative, digits, after, base);
    ParsedRightExactly(s, base);
  }

  /** Without digits a field is zero. */
  lemma NoDigitsIsZero(blanks: string, negative: bool, after: string, base: nat)
    requires 2 <= base <= 10 && (after != [] ==> after[0] < '0' || after[0] as int >= '0' as int + base)
    requires forall i :: 0 <= i < |blanks| ==> blanks[i] == ' ' || blanks[i] == '\t'
    requires !negative && after != [] ==> after[0] != ' ' && after[0] != '\t' && after[0] != '-'
    ensures var s := blanks + ((if negative then "-" else "") + ([] + after));
            Parsed(s, base) == 0 == ParsedInt64(s, base)
  {
    var s := blanks + ((if negative then "-" else "") + ([] + after));
    FieldIsRead(blanks, negative, [], after, base);
    NoDigits(base);
    ParsedRightExactly(s, base);
  }

  // In bases above ten, letters are digits.

  predicate IsLetterDigit(c: char) {
    '0' <= c <= '9' || 'a' <= c <= 'f'
  }

  function LetterValue(c: char): int {
    if '0' <= c <= '9' then c as int - '0' as int else c as int - 'a' as int + 10
  }

  ghost function Denoted(s: string, base: nat): int {
    if s == [] then 0 else Denoted(s[..|s| - 1], base) * base + LetterValue(s[|s| - 1])
  }

  predicate LettersBelow(s: string, base: nat) {
    forall i {:trigger s[i]} :: 0 <= i < |s| ==> IsLetterDigit(s[i]) && LetterValue(s[i]) < base
  }

  lemma LastLetter(front: string, last: char, base: nat)
    requires LettersBelow(front, base) && IsLetterDigit(last) && LetterValue(last) < base
    ensures LettersBelow(front + [last], base)
    ensures Denoted(front + [last], base) == Denoted(front, base) * base + LetterValue(last)
  {
    assert (front + [last])[..|front|] == front;
  }

  /** In every base up to sixteen what is printed denotes the number. */
  lemma {:induction false} PrintedDenotes(d: nat, base: nat)
    requires 2 <= base <= 16
    ensures Denoted(Digits(d, base), base) == d && LettersBelow(Digits(d, base), base)
  {
    hide Digits, Denoted, LettersBelow;
    DigitsUnfold(d, base);
    if d >= base {
      PrintedDenotes(d / base, base);
      LettersJoin(d, base, Digits(d / base, base));
    } else {
      SmallNumber(d, base);
      NoLetters(base);
      LettersJoin(d, base, []);
    }
  }

  lemma LettersJoin(d: nat, base: nat, front: string)
    requires 2 <= base <= 16 && LettersBelow(front, base) && Denoted(front, base) == d / base
    ensures var s := front + [DIGITS[d % base]]; LettersBelow(s, base) && Denoted(s, base) == d
  {
    hide Denoted, LettersBelow;
    QuotientAndRest(d, base);
    LetterOf(d % base);
    LastLetter(front, DIGITS[d % base], base);
  }

  lemma NoLetters(base: nat)
    ensures LettersBelow([], base) && Denoted([], base) == 0
  {
  }

  lemma LetterOf(r: nat)
    requires r < 16
    ensures IsLetterDigit(DIGITS[r]) && LetterValue(DIGITS[r]) == r
  {
  }
}
