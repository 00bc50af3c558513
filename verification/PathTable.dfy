/** The order of the records of an ISO 9660 path table. */
module PathTable {
  import opened Bytes

  /** A directory: its parent's number, and its identifier with the position where an extension begins. */
  datatype IsoEntry = IsoEntry(parentNumber: int, identifier: seq<byte>, extOff: nat)

  predicate Valid(e: IsoEntry) {
    e.extOff <= |e.identifier| && forall i {:trigger e.identifier[i]} :: 0 <= i < e.extOff ==> e.identifier[i] != 0
  }

  /** The identifier, followed by spaces without end. */
  function PaddedAt(e: IsoEntry, k: nat): byte
    requires Valid(e)
  {
    if k < e.extOff then e.identifier[k] else 0x20
  }

  function Sign(x: int): int {
    if x < 0 then -1 else if x > 0 then 1 else 0
  }

  /** The sign of the first difference from position `k` on, below `n`. */
  ghost function Lex(a: IsoEntry, b: IsoEntry, k: nat, n: nat): int
    requires Valid(a) && Valid(b) && k <= n
    decreases n - k
  {
    if k == n then 0
    else if PaddedAt(a, k) != PaddedAt(b, k) then Sign(PaddedAt(a, k) as int - PaddedAt(b, k) as int)
    else Lex(a, b, k + 1, n)
  }

  /** The order of ECMA-119, section 6.9.1: by parent number, then by padded identifier. */
  ghost function Order(a: IsoEntry, b: IsoEntry): int
    requires Valid(a) && Valid(b)
  {
    if a.parentNumber != b.parentNumber then Sign(a.parentNumber - b.parentNumber)
    else Lex(a, b, 0, Max(a.extOff, b.extOff))
  }

  /** Padding further changes nothing. */
  lemma {:induction false} LexBeyond(a: IsoEntry, b: IsoEntry, k: nat, n: nat)
    requires Valid(a) && Valid(b) && k <= Max(a.extOff, b.extOff) <= n
    ensures Lex(a, b, k, n) == Lex(a, b, k, Max(a.extOff, b.extOff))
    decreases n - k
  {
    if k < Max(a.extOff, b.extOff) {
      LexBeyond(a, b, k + 1, n);
    } else {
      LexOfSpaces(a, b, k, n);
    }
  }

  lemma {:induction false} LexOfSpaces(a: IsoEntry, b: IsoEntry, k: nat, n: nat)
    requires Valid(a) && Valid(b) && Max(a.extOff, b.extOff) <= k <= n
    ensures Lex(a, b, k, n) == 0
    decreases n - k
  {
    if k < n {
      LexOfSpaces(a, b, k + 1, n);
    }
  }

  lemma {:induction false} LexFlips(a: IsoEntry, b: IsoEntry, k: nat, n: nat)
    requires Valid(a) && Valid(b) && k <= n
    ensures Lex(a, b, k, n) == -Lex(b, a, k, n)
    decreases n - k
  {
    if k < n {
      LexFlips(a, b, k + 1, n);
    }
  }

  lemma {:induction false} LexTransitive(a: IsoEntry, b: IsoEntry, c: IsoEntry, k: nat, n: nat)
    requires Valid(a) && Valid(b) && Valid(c) && k <= n
    requires Lex(a, b, k, n) <= 0 && Lex(b, c, k, n) <= 0
    ensures Lex(a, c, k, n) <= 0
    ensures Lex(a, c, k, n) == 0 ==> Lex(a, b, k, n) == 0 && Lex(b, c, k, n) == 0
    decreases n - k
  {
    if k < n && PaddedAt(a, k) == PaddedAt(b, k) == PaddedAt(c, k) {
      LexTransitive(a, b, c, k + 1, n);
    }
  }

  /** Equal in the order means equal once padded. */
  lemma {:induction false} LexZero(a: IsoEntry, b: IsoEntry, k: nat, n: nat)
    requires Valid(a) && Valid(b) && k <= n
    ensures Lex(a, b, k, n) == 0 <==> forall i :: k <= i < n ==> PaddedAt(a, i) == PaddedAt(b, i)
    decreases n - k
  {
    if k < n {
      LexZero(a, b, k + 1, n);
    }
  }

  /** A total preorder: any two entries compare one way and the other way round oppositely, and the
      comparison is transitive, strictly so where either step is strict. */
  lemma TotalPreorder(a: IsoEntry, b: IsoEntry, c: IsoEntry)
    requires Valid(a) && Valid(b) && Valid(c)
    ensures Order(a, b) == -Order(b, a)
    ensures Order(a, b) <= 0 && Order(b, c) <= 0 ==> Order(a, c) <= 0
    ensures Order(a, b) <= 0 && Order(b, c) <= 0 && Order(a, c) == 0 ==> Order(a, b) == 0 && Order(b, c) == 0
  {
    LexFlips(a, b, 0, Max(a.extOff, b.extOff));
    var n := Max(a.extOff, Max(b.extOff, c.extOff));
    LexBeyond(a, b, 0, n);
    LexBeyond(b, c, 0, n);
    LexBeyond(a, c, 0, n);
    if Lex(a, b, 0, n) <= 0 && Lex(b, c, 0, n) <= 0 {
      LexTransitive(a, b, c, 0, n);
    }
  }

  lemma OrderZero(a: IsoEntry, b: IsoEntry)
    requires Valid(a) && Valid(b)
    ensures Order(a, b) == 0 <==>
            a.parentNumber == b.parentNumber && forall i: nat :: PaddedAt(a, i) == PaddedAt(b, i)
  {
    LexZero(a, b, 0, Max(a.extOff, b.extOff));
  }

  /** Position `j` is the first at which the padded identifiers differ, and `a` is smaller there. */
  ghost predicate SmallerAt(a: IsoEntry, b: IsoEntry, j: nat)
    requires Valid(a) && Valid(b)
  {
    PaddedAt(a, j) < PaddedAt(b, j) && forall i :: 0 <= i < j ==> PaddedAt(a, i) == PaddedAt(b, i)
  }

  /** Before, in the words of the standard: a smaller parent number, or the same and smaller where they first differ. */
  ghost predicate Less(a: IsoEntry, b: IsoEntry)
    requires Valid(a) && Valid(b)
  {
    a.parentNumber < b.parentNumber || (a.parentNumber == b.parentNumber && exists j :: SmallerAt(a, b, j))
  }

  lemma PaddedWithSpaces(e: IsoEntry, k: nat)
    requires Valid(e)
    ensures PaddedAt(e, k) as int == if k < e.extOff then e.identifier[k] as int else ' ' as int
  {
  }

  lemma {:induction false} LexBelow(a: IsoEntry, b: IsoEntry, k: nat, n: nat)
    requires Valid(a) && Valid(b) && k <= n && forall i :: 0 <= i < k ==> PaddedAt(a, i) == PaddedAt(b, i)
    requires n == Max(a.extOff, b.extOff)
    ensures Lex(a, b, k, n) < 0 <==> exists j :: SmallerAt(a, b, j)
    decreases n - k
  {
    if k < n {
      if PaddedAt(a, k) == PaddedAt(b, k) {
        LexBelow(a, b, k + 1, n);
      } else {
        if PaddedAt(a, k) < PaddedAt(b, k) {
          assert SmallerAt(a, b, k);
        }
        forall j | SmallerAt(a, b, j)
          ensures j == k
        {
        }
      }
    } else {
      forall j: nat
        ensures !SmallerAt(a, b, j)
      {
        if j >= n {
          assert PaddedAt(a, j) == PaddedAt(b, j);
        }
      }
    }
  }

  lemma OrderIsLess(a: IsoEntry, b: IsoEntry)
    requires Valid(a) && Valid(b)
    ensures Order(a, b) < 0 <==> Less(a, b)
  {
    LexBelow(a, b, 0, Max(a.extOff, b.extOff));
  }

  /** strncmp on two arrays without NUL among their first `l` bytes. */
  method StrNCmp(a: IsoEntry, b: IsoEntry, l: nat) returns (cmp: int)
    requires Valid(a) && Valid(b) && l <= a.extOff && l <= b.extOff
    ensures Sign(cmp) == Lex(a, b, 0, l)
    ensures cmp == 0 ==> forall n :: l <= n ==> Lex(a, b, 0, n) == Lex(a, b, l, n)
    ensures cmp != 0 ==> forall n :: l <= n ==> Lex(a, b, 0, n) == Lex(a, b, 0, l)
  {
    var i := 0;
    while i < l
      invariant i <= l
      invariant forall n :: l <= n ==> Lex(a, b, 0, n) == Lex(a, b, i, n)
    {
      var x: int, y: int := a.identifier[i], b.identifier[i];
      if x != y || x == 0 {
        return x - y;
      }
      i := i + 1;
    }
    cmp := 0;
  }

  method ComparePathTable(p1: IsoEntry, p2: IsoEntry) returns (cmp: int)
    requires Valid(p1) && Valid(p2)
    ensures Sign(cmp) == Order(p1, p2)
    ensures (cmp < 0 <==> Less(p1, p2)) && (cmp > 0 <==> Less(p2, p1))
  {
    hide Less;
    OrderIsLess(p1, p2);
    OrderIsLess(p2, p1);
    TotalPreorder(p1, p2, p1);
    cmp := p1.parentNumber - p2.parentNumber;
    if cmp != 0 {
      return;
    }
    var l := p1.extOff;
    if l > p2.extOff {
      l := p2.extOff;
    }
    cmp := StrNCmp(p1, p2, l);
    if cmp != 0 {
      return;
    }
    ghost var n := Max(p1.extOff, p2.extOff);
    if p1.extOff < p2.extOff {
      var s2 := l;
      l := p2.extOff - p1.extOff;
      while l > 0
        invariant 0 <= l && s2 + l == p2.extOff == n && s2 >= p1.extOff
        invariant Lex(p1, p2, 0, n) == Lex(p1, p2, s2, n)
      {
        l := l - 1;
        if p2.identifier[s2] != 0x20 {
          var c: int := p2.identifier[s2];
          return 0x20 - c;
        }
        s2 := s2 + 1;
      }
    } else if p1.extOff > p2.extOff {
      var s1 := l;
      l := p1.extOff - p2.extOff;
      while l > 0
        invariant 0 <= l && s1 + l == p1.extOff == n && s1 >= p2.extOff
        invariant Lex(p1, p2, 0, n) == Lex(p1, p2, s1, n)
      {
        l := l - 1;
        if p1.identifier[s1] != 0x20 {
          var c: int := p1.identifier[s1];
          return c - 0x20;
        }
        s1 := s1 + 1;
      }
    }
    return 0;
  }
}
