/** Fitting a pathname into the name and prefix fields of a ustar header, and the header's checksum. */
module UstarName {
  import opened Bytes
  import Numbers

  const NAME_OFFSET: nat := 0
  const NAME_SIZE: nat := 100
  const PREFIX_OFFSET: nat := 345
  const PREFIX_SIZE: nat := 155
  const CHECKSUM_OFFSET: nat := 148
  const CHECKSUM_SIZE: nat := 8
  const HEADER_SIZE: nat := 512

  const NUL := '\0'

  predicate NulFree(s: string) {
    forall i {:trigger s[i]} :: 0 <= i < |s| ==> s[i] != NUL
  }

  /** A C string's character, the terminator included. */
  function CharAt(s: string, i: nat): char {
    if i < |s| then s[i] else NUL
  }

  /** The slash at `k` splits the path into a prefix and a name that are not empty and fit. */
  predicate ValidSplit(s: string, k: nat) {
    && k < |s| && s[k] == '/'
    && 1 <= k <= PREFIX_SIZE
    && 1 <= |s| - k - 1 <= NAME_SIZE
  }

  datatype Placement = Whole | Split(at: nat) | TooLong

  /** The string a header field holds: up to the first NUL, or all of it. */
  function FieldText(h: string): (t: string)
    ensures |t| <= |h|
  {
    if h == [] || h[0] == NUL then [] else [h[0]] + FieldText(h[1..])
  }

  /** How a reader of the ustar Interchange Format puts a pathname together. */
  function ReadPathname(h: string): string
    requires |h| == HEADER_SIZE
  {
    var name := FieldText(h[NAME_OFFSET..NAME_OFFSET + NAME_SIZE]);
    var prefix := FieldText(h[PREFIX_OFFSET..PREFIX_OFFSET + PREFIX_SIZE]);
    if prefix == [] then name else prefix + "/" + name
  }

  lemma {:induction false} FieldHolds(text: string, rest: string)
    requires NulFree(text) && (rest == [] || rest[0] == NUL)
    ensures FieldText(text + rest) == text
  {
    if text == [] {
      assert text + rest == rest;
    } else {
      assert (text + rest)[0] == text[0] && (text + rest)[1..] == text[1..] + rest;
      FieldHolds(text[1..], rest);
    }
  }

  /** The first `c` at or after `from`. */
  method StrChr(s: string, from: nat, c: char) returns (found: bool, k: nat)
    requires from <= |s|
    ensures found ==> from <= k < |s| && s[k] == c && forall j :: from <= j < k ==> s[j] != c
    ensures !found ==> forall j :: from <= j < |s| ==> s[j] != c
  {
    k := from;
    while k < |s|
      invariant from <= k <= |s| && forall j :: from <= j < k ==> s[j] != c
    {
      if s[k] == c {
        return true, k;
      }
      k := k + 1;
    }
    found := false;
  }

  /** Sound and complete: the split chosen is valid and has the shortest valid prefix, and a path is
      reported as too long only when it has no valid split. */
  method Place(pp: string) returns (r: Placement)
    requires NulFree(pp)
    ensures r == Whole <==> |pp| <= NAME_SIZE
    ensures r.Split? ==> ValidSplit(pp, r.at) && forall k :: 0 <= k < r.at ==> !ValidSplit(pp, k)
    ensures r == TooLong ==> forall k: nat :: !ValidSplit(pp, k)
  {
    if |pp| <= NAME_SIZE {
      return Whole;
    }
    var found, p := StrChr(pp, |pp| - NAME_SIZE - 1, '/');
    if found && p == 0 {
      found, p := StrChr(pp, p + 1, '/');
    }
    if !found {
      return TooLong;
    } else if CharAt(pp, p + 1) == NUL {
      return TooLong;
    } else if p > PREFIX_SIZE {
      return TooLong;
    }
    return Split(p);
  }

  /** Copy a text into a header. */
  method MemCpy(h: array<char>, at: nat, text: string)
    requires at + |text| <= h.Length
    modifies h
    ensures h[at..at + |text|] == text
    ensures forall i :: 0 <= i < at || at + |text| <= i < h.Length ==> h[i] == old(h[i])
  {
    forall i | 0 <= i < |text| {
      h[at + i] := text[i];
    }
  }

  ghost predicate NullFilled(h: string, offset: nat, size: nat) {
    offset + size <= |h| && forall i {:trigger h[i]} :: offset <= i < offset + size ==> h[i] == NUL
  }

  /** The two memcpys, when there is a prefix and when there is none. */
  method Fill(h: array<char>, name: string, prefix: string)
    requires h.Length == HEADER_SIZE && NulFree(name) && NulFree(prefix)
    requires |name| <= NAME_SIZE && |prefix| <= PREFIX_SIZE
    requires NullFilled(h[..], NAME_OFFSET, NAME_SIZE) && NullFilled(h[..], PREFIX_OFFSET, PREFIX_SIZE)
    modifies h
    ensures ReadPathname(h[..]) == if prefix == [] then name else prefix + "/" + name
    ensures forall i :: NAME_SIZE <= i < PREFIX_OFFSET || PREFIX_OFFSET + PREFIX_SIZE <= i < HEADER_SIZE ==>
              h[i] == old(h[i])
  {
    if prefix != [] {
      MemCpy(h, PREFIX_OFFSET, prefix);
    }
    MemCpy(h, NAME_OFFSET, name);
    ReadsField(h[..], NAME_OFFSET, NAME_SIZE, name);
    ReadsField(h[..], PREFIX_OFFSET, PREFIX_SIZE, prefix);
  }

  lemma SplitJoins(pp: string, k: nat)
    requires ValidSplit(pp, k)
    ensures pp[..k] + "/" + pp[k + 1..] == pp
  {
  }

  /** Write the pathname into a header whose two fields are still null-filled. */
  method WritePathname(h: array<char>, pp: string) returns (ok: bool)
    requires NulFree(pp) && h.Length == HEADER_SIZE
    requires NullFilled(h[..], NAME_OFFSET, NAME_SIZE) && NullFilled(h[..], PREFIX_OFFSET, PREFIX_SIZE)
    modifies h
    ensures ok ==> ReadPathname(h[..]) == pp
    ensures ok <==> |pp| <= NAME_SIZE || exists k: nat :: ValidSplit(pp, k)
    ensures !ok ==> h[..] == old(h[..])
    ensures forall i :: NAME_SIZE <= i < PREFIX_OFFSET || PREFIX_OFFSET + PREFIX_SIZE <= i < HEADER_SIZE ==>
              h[i] == old(h[i])
  {
    hide ReadPathname, FieldText;
    var r := Place(pp);
    match r {
      case TooLong =>
        return false;
      case Whole =>
        Fill(h, pp, []);
      case Split(p) =>
        SplitJoins(pp, p);
        Fill(h, pp[p + 1..], pp[..p]);
    }
    ok := true;
  }

  /** A field filled from the front and null-filled behind reads as what it was filled with. */
  lemma ReadsField(h: string, offset: nat, size: nat, text: string)
    requires offset + size <= |h| && NulFree(text) && |text| <= size
    requires h[offset..offset + |text|] == text
    requires NullFilled(h, offset + |text|, size - |text|)
    ensures FieldText(h[offset..offset + size]) == text
  {
    var rest := h[offset + |text|..offset + size];
    assert h[offset..offset + size] == text + rest;
    FieldHolds(text, rest);
  }

  /** Where a reader looks: the layout of the POSIX ustar Interchange Format. */
  lemma NameLayout(h: string)
    requires |h| == 512
    ensures var name, prefix := FieldText(h[0..100]), FieldText(h[345..500]);
            ReadPathname(h) == if prefix == [] then name else prefix + "/" + name
  {
    hide FieldText;
  }

  lemma SplitLayout(s: string, k: nat)
    ensures ValidSplit(s, k) <==> 1 <= k <= 155 && k + 1 < |s| <= k + 101 && s[k] == '/'
  {
  }

  // ---------- the checksum ----------

  const SPACES := "        "

  /** The sum of the bytes of a text. */
  ghost function Sum(h: string): (v: nat)
    ensures v <= 255 * |h|
  {
    if h == [] then 0 else Sum(h[..|h| - 1]) + h[|h| - 1] as int % 256
  }

  /** What a reader sums up: the header with spaces for its checksum. */
  ghost function Blanked(h: string): (b: string)
    requires |h| == HEADER_SIZE
    ensures |b| == HEADER_SIZE
  {
    h[..CHECKSUM_OFFSET] + SPACES + h[CHECKSUM_OFFSET + CHECKSUM_SIZE..]
  }

  /** How a reader checks a header. */
  ghost predicate ChecksumOk(h: string)
    requires |h| == HEADER_SIZE
  {
    Numbers.Parsed(h[CHECKSUM_OFFSET..CHECKSUM_OFFSET + CHECKSUM_SIZE], 8) == Sum(Blanked(h))
  }

  /** The last `n` octal digits of a number. */
  ghost function Octal(v: nat, n: nat): (t: string)
    ensures |t| == n
  {
    if n == 0 then [] else Octal(v / 8, n - 1) + [Numbers.DIGITS[v % 8]]
  }

  lemma {:induction false} OctalDenotes(v: nat, n: nat)
    requires v < Pow2(3 * n)
    ensures Numbers.AllDigits(Octal(v, n), 8) && Numbers.Value(Octal(v, n), 8) == v
  {
    if n > 0 {
      var front := Octal(v / 8, n - 1);
      Numbers.EightTimes(3 * n - 3);
      EighthFits(v, Pow2(3 * n - 3));
      OctalDenotes(v / 8, n - 1);
      AppendOctalDigit(v, front);
    }
  }

  lemma EighthFits(v: nat, p: nat)
    requires v < 8 * p
    ensures v / 8 < p
  {
  }

  lemma AppendOctalDigit(v: nat, front: string)
    requires Numbers.AllDigits(front, 8) && Numbers.Value(front, 8) == v / 8
    ensures Numbers.AllDigits(front + [Numbers.DIGITS[v % 8]], 8)
    ensures Numbers.Value(front + [Numbers.DIGITS[v % 8]], 8) == v
  {
    Numbers.DigitIsDigit(v % 8, 8);
    Numbers.LastDigit(front, Numbers.DIGITS[v % 8], 8);
  }

  /** Write `n` octal digits, the last one first. */
  method FormatOctal(v: nat, h: array<char>, at: nat, n: nat)
    requires at + n <= h.Length
    modifies h
    ensures h[at..at + n] == Octal(v, n)
    ensures forall i :: 0 <= i < at || at + n <= i < h.Length ==> h[i] == old(h[i])
  {
    var rest: nat, k: nat := v, n;
    while k > 0
      invariant k <= n && Octal(v, n) == Octal(rest, k) + h[at + k..at + n]
      invariant forall i :: 0 <= i < at || at + n <= i < h.Length ==> h[i] == old(h[i])
    {
      ghost var written := h[at + k..at + n];
      k := k - 1;
      h[at + k] := Numbers.DIGITS[rest % 8];
      assert h[at + k..at + n] == [h[at + k]] + written;
      rest := rest / 8;
    }
  }

  /** The checksum loop, over a header whose checksum is still the spaces of the template. */
  method WriteChecksum(h: array<char>)
    requires h.Length == HEADER_SIZE && h[CHECKSUM_OFFSET..CHECKSUM_OFFSET + CHECKSUM_SIZE] == SPACES
    modifies h
    ensures ChecksumOk(h[..]) && Blanked(h[..]) == old(h[..])
  {
    var checksum, i := 0, 0;
    while i < HEADER_SIZE
      invariant i <= HEADER_SIZE && checksum == Sum(h[..i])
    {
      assert h[..i + 1][..i] == h[..i];
      checksum := checksum + h[i] as int % 256;
      i := i + 1;
    }
    assert h[..HEADER_SIZE] == h[..];
    h[CHECKSUM_OFFSET + 6] := NUL;
    FormatOctal(checksum, h, CHECKSUM_OFFSET, 6);
    assert h[CHECKSUM_OFFSET + 7] == SPACES[7];
    assert Blanked(h[..]) == old(h[..]);
    FieldOfEight(h[..], CHECKSUM_OFFSET, Octal(checksum, 6));
    ReadsChecksum(checksum, h[CHECKSUM_OFFSET..CHECKSUM_OFFSET + CHECKSUM_SIZE]);
  }

  lemma FieldOfEight(h: string, at: nat, digits: string)
    requires at + 8 <= |h| && h[at..at + 6] == digits && h[at + 6] == NUL && h[at + 7] == ' '
    ensures h[at..at + 8] == digits + [NUL, ' ']
  {
  }

  lemma ReadsChecksum(v: nat, field: string)
    requires v < 0x4_0000 && field == Octal(v, 6) + [NUL, ' ']
    ensures Numbers.Parsed(field, 8) == v
  {
    hide Octal, Numbers.Value, Numbers.DigitRun, Numbers.DigitsOf, Numbers.Negative, Numbers.Blanks;
    var digits, after := Octal(v, 6), [NUL, ' '];
    assert Pow2(6) == 0x40 && Pow2(12) == 0x1000 && Pow2(18) == 0x4_0000;
    OctalDenotes(v, 6);
    Numbers.FieldStartsWithDigit(digits, after, 8);
    Numbers.RunOfDigits(digits, after, 8);
    assert field[..6] == digits;
  }

  lemma {:induction false} SumOfChanged(h: string, i: nat, c: char)
    requires i < |h|
    ensures Sum(h[i := c]) - Sum(h) == c as int % 256 - h[i] as int % 256
  {
    var front := h[..|h| - 1];
    if i < |h| - 1 {
      assert h[i := c][..|h| - 1] == front[i := c];
      SumOfChanged(front, i, c);
    } else {
      assert h[i := c][..|h| - 1] == front;
    }
  }

  lemma {:induction false} SumJoins(a: string, b: string)
    ensures Sum(a + b) == Sum(a) + Sum(b) && Sum([]) == 0
  {
    if b == [] {
      assert a + b == a;
    } else {
      SumJoins(a, b[..|b| - 1]);
      assert (a + b)[..|a + b| - 1] == a + b[..|b| - 1];
    }
  }

  /** The checksum is the sum of the bytes before its field, of eight spaces, and of the bytes behind it. */
  lemma ChecksumLayout(h: string)
    requires |h| == 512
    ensures ChecksumOk(h) <==> Numbers.Parsed(h[148..156], 8) == Sum(h[..148]) + 8 * 32 + Sum(h[156..])
  {
    SumJoins(h[..148] + SPACES, h[156..]);
    SumJoins(h[..148], SPACES);
    SpacesSum();
  }

  lemma SpacesSum()
    ensures Sum(SPACES) == 8 * 32
  {
    assert SPACES == [' ', ' ', ' ', ' '] + [' ', ' ', ' ', ' '];
    assert [' ', ' ', ' ', ' '] == [' ', ' '] + [' ', ' '] && [' ', ' '] == [' '] + [' '];
    SumJoins([' ', ' ', ' ', ' '], [' ', ' ', ' ', ' ']);
    SumJoins([' ', ' '], [' ', ' ']);
    SumJoins([' '], [' ']);
    assert Sum([' ']) == 32;
  }

  /** A header with one byte changed outside its checksum is not taken for a good one. */
  lemma OneByteTells(h: string, i: nat, c: char)
    requires |h| == HEADER_SIZE && ChecksumOk(h)
    requires i < CHECKSUM_OFFSET || CHECKSUM_OFFSET + CHECKSUM_SIZE <= i < HEADER_SIZE
    ensures ChecksumOk(h[i := c]) <==> c as int % 256 == h[i] as int % 256
  {
    assert Blanked(h[i := c]) == Blanked(h)[i := c];
    assert h[i := c][CHECKSUM_OFFSET..CHECKSUM_OFFSET + CHECKSUM_SIZE] ==
           h[CHECKSUM_OFFSET..CHECKSUM_OFFSET + CHECKSUM_SIZE];
    SumOfChanged(Blanked(h), i, c);
  }

  /** Pathname and checksum together: a header that reads back, or that is marked by the checksum all the same. */
  method WriteHeader(h: array<char>, pp: string) returns (ok: bool)
    requires NulFree(pp) && h.Length == HEADER_SIZE
    requires NullFilled(h[..], NAME_OFFSET, NAME_SIZE) && NullFilled(h[..], PREFIX_OFFSET, PREFIX_SIZE)
    requires h[CHECKSUM_OFFSET..CHECKSUM_OFFSET + CHECKSUM_SIZE] == SPACES
    modifies h
    ensures ChecksumOk(h[..])
    ensures ok ==> ReadPathname(h[..]) == pp
    ensures ok <==> |pp| <= NAME_SIZE || exists k: nat :: ValidSplit(pp, k)
  {
    ok := WritePathname(h, pp);
    assert h[CHECKSUM_OFFSET..CHECKSUM_OFFSET + CHECKSUM_SIZE] == SPACES;
    ghost var named := h[..];
    WriteChecksum(h);
    BlankedReadsAlike(h[..], named);
  }

  lemma BlankedReadsAlike(h: string, named: string)
    requires |h| == HEADER_SIZE && Blanked(h) == named
    ensures ReadPathname(h) == ReadPathname(named)
  {
    assert forall i {:trigger h[i]} :: 0 <= i < CHECKSUM_OFFSET ==> h[i] == named[i];
    assert forall i {:trigger h[i]} :: CHECKSUM_OFFSET + CHECKSUM_SIZE <= i < HEADER_SIZE ==> h[i] == named[i];
    assert h[NAME_OFFSET..NAME_OFFSET + NAME_SIZE] == named[NAME_OFFSET..NAME_OFFSET + NAME_SIZE];
    assert h[PREFIX_OFFSET..PREFIX_OFFSET + PREFIX_SIZE] == named[PREFIX_OFFSET..PREFIX_OFFSET + PREFIX_SIZE];
  }
}
