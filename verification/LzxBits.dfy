/** Refilling the bit cache of the LZX decoder, 16-bit little-endian words at a time or in bulk. */
module LzxBits {
  import opened Bytes
  import opened Modular

  const CACHE_BITS: nat := 64

  /** The bits `v` followed by the next `k` words of the input, as one number. */
  ghost function Appended(v: nat, input: seq<byte>, p: nat, k: nat): nat
    requires p + 2 * k <= |input|
    decreases k
  {
    if k == 0 then v else Appended(v * 0x1_0000 + Le16(input, p), input, p + 2, k - 1)
  }

  lemma NothingAppended(v: nat, input: seq<byte>, p: nat)
    requires p <= |input|
    ensures Appended(v, input, p, 0) == v
  {
  }

  lemma {:induction false} AppendedSplits(v: nat, input: seq<byte>, p: nat, j: nat, k: nat)
    requires j <= k && p + 2 * k <= |input|
    ensures Appended(v, input, p, k) == Appended(Appended(v, input, p, j), input, p + 2 * j, k - j)
    decreases j
  {
    if j > 0 {
      AppendedSplits(v * 0x1_0000 + Le16(input, p), input, p + 2, j - 1, k - 1);
    }
  }

  /** The last word taken is in the low 16 bits. */
  lemma LastWord(v: nat, input: seq<byte>, p: nat, k: nat)
    requires k > 0 && p + 2 * k <= |input|
    ensures Appended(v, input, p, k) == Appended(v, input, p, k - 1) * 0x1_0000 + Le16(input, p + 2 * (k - 1))
  {
    AppendedSplits(v, input, p, k - 1, k);
    var u, q := Appended(v, input, p, k - 1), p + 2 * (k - 1);
    assert Appended(u, input, q, 1) == Appended(u * 0x1_0000 + Le16(input, q), input, q + 2, 0);
  }

  /** Word by word: of `k` words taken, word `j` is bytes 2j and 2j + 1 of the input, the second one high, above the
      k - 1 - j words after it; and above all of them are the bits from before. */
  lemma {:induction false} WordsInOrder(v: nat, input: seq<byte>, p: nat, k: nat, j: nat)
    requires p + 2 * k <= |input|
    ensures Appended(v, input, p, k) / Pow2(16 * k) == v
    ensures j < k ==> Appended(v, input, p, k) / Pow2(16 * (k - 1 - j)) % 0x1_0000 ==
                      Octet(input, p + 2 * j) + 0x100 * Octet(input, p + 2 * j + 1)
    decreases k
  {
    hide Appended, Pow2;
    if k == 0 {
      NothingAppended(v, input, p);
      NoBits(v);
    } else {
      var u, w := Appended(v, input, p, k - 1), Le16(input, p + 2 * (k - 1));
      LastWord(v, input, p, k);
      WordsInOrder(v, input, p, k - 1, j);
      DropWord(u, w, k - 1);
      if j < k - 1 {
        DropWord(u, w, k - 2 - j);
      } else {
        NoBits(u * 0x1_0000 + w);
        ModUnique(u * 0x1_0000 + w, u, w, 0x1_0000);
      }
    }
  }

  lemma NoBits(x: nat)
    ensures x / Pow2(0) == x
  {
    ModUnique(x, x, 0, 1);
  }

  lemma DropWord(u: nat, w: nat, m: nat)
    requires w < 0x1_0000
    ensures (u * 0x1_0000 + w) / Pow2(16 * (m + 1)) == u / Pow2(16 * m)
  {
    hide Pow2;
    var p := Pow2(16 * m);
    Powers();
    Pow2Sum(16 * m, 16);
    var q, r := u / p, u % p;
    assert u == q * p + r;
    BelowMultiple(r, p, w, 0x1_0000);
    WordBelow(q, p, r, w);
    ModUnique(u * 0x1_0000 + w, q, r * 0x1_0000 + w, p * 0x1_0000);
  }

  lemma WordBelow(q: nat, p: nat, r: nat, w: nat)
    ensures (q * p + r) * 0x1_0000 + w == q * (p * 0x1_0000) + (r * 0x1_0000 + w)
  {
  }

  /** Taking `k` words into the bits leaves the same words behind the same bits. */
  lemma NothingLost(v: nat, input: seq<byte>, p: nat, k: nat)
    requires p + 2 * k <= |input|
    ensures Appended(Appended(v, input, p, k), input, p + 2 * k, (|input| - (p + 2 * k)) / 2) ==
            Appended(v, input, p, (|input| - p) / 2)
  {
    AppendedSplits(v, input, p, k, (|input| - p) / 2);
  }

  lemma ThreeWords(v: nat, input: seq<byte>, p: nat)
    requires p + 6 <= |input|
    ensures Appended(v, input, p, 3) ==
            v * 0x1_0000_0000_0000 + Le16(input, p) * 0x1_0000_0000 + Le16(input, p + 2) * 0x1_0000 + Le16(input, p + 4)
  {
    var v1 := v * 0x1_0000 + Le16(input, p);
    var v2 := v1 * 0x1_0000 + Le16(input, p + 2);
    assert Appended(v2, input, p + 4, 1) == Appended(v2 * 0x1_0000 + Le16(input, p + 4), input, p + 6, 0);
    assert Appended(v1, input, p + 2, 2) == Appended(v2, input, p + 4, 1);
  }

  lemma FourWords(input: seq<byte>, p: nat)
    requires p + 8 <= |input|
    ensures Appended(0, input, p, 4) ==
            Le16(input, p) * 0x1_0000_0000_0000 + Le16(input, p + 2) * 0x1_0000_0000 + Le16(input, p + 4) * 0x1_0000 +
            Le16(input, p + 6)
  {
    ThreeWords(Le16(input, p), input, p + 2);
    assert Appended(0, input, p, 4) == Appended(Le16(input, p), input, p + 2, 3);
  }

  /** The eight bytes as the four-word path puts them together. */
  function EightBytes(input: seq<byte>, p: nat): (x: nat)
    requires p + 8 <= |input|
    ensures x < TWO64
  {
    Octet(input, p + 1) * 0x100_0000_0000_0000 + Octet(input, p) * 0x1_0000_0000_0000 +
    Octet(input, p + 3) * 0x100_0000_0000 +
    Octet(input, p + 2) * 0x1_0000_0000 + Octet(input, p + 5) * 0x100_0000 + Octet(input, p + 4) * 0x1_0000 +
    Octet(input, p + 7) * 0x100 + Octet(input, p + 6)
  }

  lemma EightBytesAreFourWords(c: nat, input: seq<byte>, p: nat)
    requires p + 8 <= |input|
    ensures EightBytes(input, p) % Pow2(64) == Appended(c % Pow2(0), input, p, 4)
  {
    Powers();
    FourWords(input, p);
    ModUnique(c, c, 0, 1);
  }

  /** The six bytes as the three-word path puts them together. */
  function SixBytes(input: seq<byte>, p: nat): (x: nat)
    requires p + 6 <= |input|
    ensures x < 0x1_0000_0000_0000
  {
    Octet(input, p + 1) * 0x100_0000_0000 + Octet(input, p) * 0x1_0000_0000 + Octet(input, p + 3) * 0x100_0000 +
    Octet(input, p + 2) * 0x1_0000 + Octet(input, p + 5) * 0x100 + Octet(input, p + 4)
  }

  lemma SixBytesAreThreeWords(v: nat, input: seq<byte>, p: nat)
    requires p + 6 <= |input|
    ensures SixBytes(input, p) < Pow2(48) && v * Pow2(48) + SixBytes(input, p) == Appended(v, input, p, 3)
  {
    Powers();
    ThreeWords(v, input, p);
  }

  /** Shifting `s` bits into a 64-bit cache shifts them into its low `a` bits. */
  lemma ShiftIn(c: nat, a: nat, s: nat, x: nat)
    requires a + s <= 64 && x < Pow2(s)
    ensures ((c * Pow2(s)) % Pow2(64) + x) % Pow2(a + s) == (c % Pow2(a)) * Pow2(s) + x
  {
    Pow2Sum(a, s);
    var m := Pow2Divides(a + s, 64);
    ShiftInto(c, Pow2(a), Pow2(s), Pow2(a + s), m, x);
  }

  lemma ShiftInto(c: nat, p: nat, w: nat, q: nat, m: nat, x: nat)
    requires p > 0 && q == p * w > 0 && m * q > 0 && x < w
    ensures ((c * w) % (m * q) + x) % q == (c % p) * w + x
  {
    RemainderOfMultiple(c * w, m, q);
    ModScale(c, p, w);
    BelowMultiple(c % p, p, x, w);
    AddBelow((c * w) % (m * q), x, q, (c % p) * w);
  }

  lemma AddBelow(u: nat, x: nat, q: nat, r: nat)
    requires q > 0 && u % q == r && r + x < q
    ensures (u + x) % q == r + x
  {
    ModAdd(u, x, q);
  }

  /** Taking words until either the room or the input runs out takes the lesser of the two. */
  lemma WordCount(avail: nat, bytes: nat, k: nat)
    requires avail + 16 * k <= CACHE_BITS && 2 * k <= bytes
    requires CACHE_BITS - (avail + 16 * k) < 16 || bytes - 2 * k < 2
    ensures k == Min((CACHE_BITS - avail) / 16, bytes / 2)
  {
  }

  ghost function LowBits(c: nat, a: nat): nat {
    c % Pow2(a)
  }

  class BitReader {
    var cacheBuffer: nat
    var cacheAvail: nat
    var odd: byte
    var haveOdd: bool
    const input: seq<byte>
    var nextIn: nat

    ghost predicate Valid()
      reads this
    {
      cacheBuffer < Pow2(64) && cacheAvail <= CACHE_BITS && nextIn <= |input|
    }

    function AvailIn(): int
      reads this
    {
      |input| - nextIn
    }

    /** The bits of the cache that count. */
    ghost function Cached(): nat
      reads this
    {
      LowBits(cacheBuffer, cacheAvail)
    }

    /** Everything still to be read, as one number: the cached bits, then the words of the input. */
    ghost function Pending(): nat
      reads this
      requires Valid()
    {
      Appended(Cached(), input, nextIn, AvailIn() / 2)
    }

    constructor (input: seq<byte>)
      ensures Valid() && cacheAvail == 0 && nextIn == 0 && this.input == input && !haveOdd
    {
      this.input := input;
      cacheBuffer, cacheAvail, odd, haveOdd, nextIn := 0, 0, 0, false, 0;
    }

    /** The cache shifted left by `s` bits, with `x` in the room that makes. */
    method Shift(s: nat, x: nat)
      requires Valid() && cacheAvail + s <= CACHE_BITS && x < Pow2(s)
      modifies this`cacheBuffer, this`cacheAvail
      ensures cacheBuffer < Pow2(64) && cacheAvail == old(cacheAvail) + s
      ensures Cached() == old(Cached()) * Pow2(s) + x
    {
      ShiftIn(cacheBuffer, cacheAvail, s, x);
      ShiftFits(cacheBuffer, s, x);
      cacheBuffer := (cacheBuffer * Pow2(s)) % Pow2(64) + x;
      cacheAvail := cacheAvail + s;
    }

    /** `k` words have gone from input position `p` into a cache that held `v` in `avail` bits. */
    ghost predicate Took(v: nat, avail: nat, p: nat, k: nat)
      reads this
    {
      && p + 2 * k <= |input|
      && cacheAvail == avail + 16 * k
      && Cached() == Appended(v, input, p, k)
    }

    /** Fill the cache as far as whole words go; the result says whether it is full. */
    method Fillup() returns (r: int)
      requires Valid()
      modifies this
      ensures Valid() && Pending() == old(Pending())
      ensures var k := Min((CACHE_BITS - old(cacheAvail)) / 16, old(AvailIn()) / 2);
              && Took(old(Cached()), old(cacheAvail), old(nextIn), k)
              && nextIn == old(nextIn) + 2 * k + (if r == 0 && old(AvailIn()) % 2 == 1 then 1 else 0)
      ensures r == 0 || r == 1
      ensures r == 1 <==> CACHE_BITS - cacheAvail < 16
      ensures r == 0 ==> AvailIn() == 0
      ensures r == 0 && old(AvailIn()) % 2 == 1 ==> haveOdd && odd == input[|input| - 1]
      ensures r == 1 || old(AvailIn()) % 2 == 0 ==> haveOdd == old(haveOdd) && odd == old(odd)
    {
      hide Appended, LowBits, Pow2;
      ghost var v, avail, p, k := Cached(), cacheAvail, nextIn, 0;
      NothingAppended(v, input, p);
      var n := CACHE_BITS - cacheAvail;
      while true
        invariant Valid() && n == CACHE_BITS - cacheAvail
        invariant Took(v, avail, p, k) && nextIn == p + 2 * k
        invariant Pending() == old(Pending())
        invariant haveOdd == old(haveOdd) && odd == old(odd)
        decreases n
      {
        var done, words := TakeMore(n, v, avail, p, k);
        k := k + words;
        if done {
          WordCount(avail, |input| - p, k);
          return 1;
        }
        if words == 0 {
          WordCount(avail, |input| - p, k);
          StashOdd();
          return 0;
        }
        n := n - 16;
      }
    }

    /** Put the last byte aside when there is one. */
    method StashOdd()
      requires Valid() && AvailIn() < 2
      modifies this`odd, this`nextIn, this`haveOdd
      ensures Valid() && AvailIn() == 0 && Pending() == old(Pending())
      ensures old(AvailIn()) == 1 ==> haveOdd && odd == input[|input| - 1]
      ensures old(AvailIn()) == 0 ==> haveOdd == old(haveOdd) && odd == old(odd)
    {
      if AvailIn() == 1 {
        odd := input[nextIn];
        nextIn := nextIn + 1;
        haveOdd := true;
      }
    }

    /** One turn of the loop, after `k` words. */
    method TakeMore(n: nat, ghost v: nat, ghost avail: nat, ghost p: nat, ghost k: nat) returns (done: bool, words: nat)
      requires Valid() && n == CACHE_BITS - cacheAvail && Took(v, avail, p, k) && nextIn == p + 2 * k
      modifies this`cacheBuffer, this`cacheAvail, this`nextIn
      ensures Valid() && Took(v, avail, p, k + words) && nextIn == p + 2 * (k + words)
      ensures Pending() == old(Pending())
      ensures done <==> CACHE_BITS - cacheAvail < 16 && words != 1
      ensures !done ==> words <= 1 && (words == 0 <==> n >= 16 && old(AvailIn()) < 2)
    {
      hide Appended, LowBits, Pow2;
      done, words := TakeWords(n);
      AppendedSplits(v, input, p, k, k + words);
    }

    /** Take four words, or three, or one, or none; `done` if there is no room for another. */
    method TakeWords(n: nat) returns (done: bool, words: nat)
      requires Valid() && n == CACHE_BITS - cacheAvail
      modifies this`cacheBuffer, this`cacheAvail, this`nextIn
      ensures Valid() && Took(old(Cached()), old(cacheAvail), old(nextIn), words) && nextIn == old(nextIn) + 2 * words
      ensures Pending() == old(Pending())
      ensures done <==> CACHE_BITS - cacheAvail < 16 && (words != 1)
      ensures !done ==> words <= 1 && (words == 0 <==> n >= 16 && old(AvailIn()) < 2)
    {
      hide Appended, LowBits, Pow2;
      ghost var v, p := Cached(), nextIn;
      NothingAppended(v, input, p);
      done, words := false, 0;
      if n / 16 == 4 && AvailIn() >= 8 {
        TakeFour();
        done, words := true, 4;
      } else if n / 16 == 3 && AvailIn() >= 6 {
        TakeThree();
        done, words := true, 3;
      } else if n / 16 == 0 {
        done := true;
      } else if AvailIn() >= 2 {
        TakeOne();
        words := 1;
      }
      NothingLost(v, input, p, words);
    }

    method TakeOne()
      requires Valid() && cacheAvail + 16 <= CACHE_BITS && AvailIn() >= 2
      modifies this`cacheBuffer, this`cacheAvail, this`nextIn
      ensures Valid() && cacheAvail == old(cacheAvail) + 16 && nextIn == old(nextIn) + 2
      ensures Cached() == Appended(old(Cached()), input, old(nextIn), 1)
    {
      Powers();
      Shift(16, Le16(input, nextIn));
      nextIn := nextIn + 2;
    }

    method TakeThree()
      requires Valid() && cacheAvail + 48 <= CACHE_BITS && AvailIn() >= 6
      modifies this`cacheBuffer, this`cacheAvail, this`nextIn
      ensures Valid() && cacheAvail == old(cacheAvail) + 48 && nextIn == old(nextIn) + 6
      ensures Cached() == Appended(old(Cached()), input, old(nextIn), 3)
    {
      SixBytesAreThreeWords(Cached(), input, nextIn);
      Shift(48, SixBytes(input, nextIn));
      nextIn := nextIn + 6;
    }

    method TakeFour()
      requires Valid() && cacheAvail == 0 && AvailIn() >= 8
      modifies this`cacheBuffer, this`cacheAvail, this`nextIn
      ensures Valid() && cacheAvail == 64 && nextIn == old(nextIn) + 8
      ensures Cached() == Appended(old(Cached()), input, old(nextIn), 4)
    {
      Powers();
      EightBytesAreFourWords(cacheBuffer, input, nextIn);
      cacheBuffer := EightBytes(input, nextIn);
      nextIn := nextIn + 8;
      cacheAvail := cacheAvail + 64;
    }
  }

  lemma Powers()
    ensures Pow2(0) == 1 && Pow2(16) == 0x1_0000 && Pow2(48) == 0x1_0000_0000_0000 && Pow2(64) == TWO64
  {
    assert Pow2(8) == 0x100;
    Pow2Sum(8, 8);
    Pow2Sum(16, 16);
    Pow2Sum(32, 16);
    Pow2Sum(48, 16);
  }

  lemma ShiftFits(c: nat, s: nat, x: nat)
    requires s <= 64 && x < Pow2(s)
    ensures (c * Pow2(s)) % Pow2(64) + x < Pow2(64)
  {
    var m := Pow2Divides(s, 64);
    if m > 0 {
      ModScale(c, m, Pow2(s));
      BelowMultiple(c % m, m, x, Pow2(s));
    }
  }
}
