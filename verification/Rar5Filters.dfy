/** The RAR5 filters that turn absolute branch targets back into relative ones. */
module Rar5Filters {
  import opened Bytes
  import opened Modular

  const FILE_SIZE: nat := 0x100_0000

  function Bytes32(x: word): (b: seq<byte>)
    ensures |b| == 4 && Le32(b[0], b[1], b[2], b[3]) == x
  {
    [x % 0x100, x / 0x100 % 0x100, x / 0x100 / 0x100 % 0x100, x / 0x100 / 0x100 / 0x100]
  }

  function Sub32(x: word, y: word): word {
    if x >= y then x - y else x - y + TWO32
  }

  function Add32(x: word, y: word): word {
    if x + y < TWO32 then x + y else x + y - TWO32
  }

  predicate Negative(x: word) {
    x >= 0x8000_0000
  }

  // ---------- x86: E8 and E9 ----------

  /** What the filter does to one operand at file offset `offset`. */
  function ToRelative(addr: word, offset: nat): word
    requires offset < FILE_SIZE
  {
    if Negative(addr) then
      if !Negative(Add32(addr, offset)) then Add32(addr, FILE_SIZE) else addr
    else
      if Negative(Sub32(addr, FILE_SIZE)) then Sub32(addr, offset) else addr
  }

  /** What undoes it. */
  function ToAbsolute(addr: word, offset: nat): word
    requires offset < FILE_SIZE
  {
    var a := Signed(addr);
    if 0 - offset <= a < FILE_SIZE - offset then Add32(addr, offset)
    else if FILE_SIZE - offset <= a < FILE_SIZE then Sub32(addr, FILE_SIZE)
    else addr
  }

  function Signed(x: word): int {
    if Negative(x) then x - TWO32 else x
  }

  /** As signed numbers: the operands in [-offset, 2^24) are rotated down by `offset`, and no other moves. */
  lemma RotatesRange(addr: word, offset: nat)
    requires offset < FILE_SIZE
    ensures var a, r := Signed(addr), Signed(ToRelative(addr, offset));
            if 0 - offset <= a < FILE_SIZE then
              0 - offset <= r < FILE_SIZE && r == (if a >= 0 then a - offset else a + FILE_SIZE)
            else r == a
  {
  }

  lemma ToRelativeIsBijective(addr: word, offset: nat)
    requires offset < FILE_SIZE
    ensures ToAbsolute(ToRelative(addr, offset), offset) == addr
    ensures ToRelative(ToAbsolute(addr, offset), offset) == addr
  {
  }

  /** The transform of an operand, or the inverse of it. */
  function Moved(addr: word, offset: nat, forward: bool): word
    requires offset < FILE_SIZE
  {
    if forward then ToRelative(addr, offset) else ToAbsolute(addr, offset)
  }

  lemma MovedBackAndForth(addr: word, offset: nat, forward: bool)
    requires offset < FILE_SIZE
    ensures Moved(Moved(addr, offset, forward), offset, !forward) == addr
  {
    ToRelativeIsBijective(addr, offset);
  }

  predicate IsBranch(b: byte, extended: bool) {
    b == 0xE8 || (extended && b == 0xE9)
  }

  /** The file offset the filter attaches to the operand at block position `pos`. */
  function OffsetAt(pos: nat): (o: nat)
    ensures o < FILE_SIZE
  {
    pos % FILE_SIZE
  }

  function OperandAt(s: seq<byte>, i: nat): word
    requires i + 4 <= |s|
  {
    Le32(s[i], s[i + 1], s[i + 2], s[i + 3])
  }

  /** The block filtered; `pos` is the file position of its first byte, and the direction is forward
      for the decoder's filter, backward for the compressor's. */
  ghost function E8E9(s: seq<byte>, pos: nat, extended: bool, forward: bool): (r: seq<byte>)
    ensures |r| == |s|
  {
    if |s| <= 4 then s
    else if IsBranch(s[0], extended) then
      var addr := OperandAt(s, 1);
      var offset := OffsetAt(pos + 1);
      [s[0]] + Bytes32(Moved(addr, offset, forward)) +
      E8E9(s[5..], pos + 5, extended, forward)
    else
      [s[0]] + E8E9(s[1..], pos + 1, extended, forward)
  }

  lemma Bytes32Inverse(b0: byte, b1: byte, b2: byte, b3: byte)
    ensures Bytes32(Le32(b0, b1, b2, b3)) == [b0, b1, b2, b3]
  {
    var y2 := b2 + 0x100 * b3;
    var y1 := b1 + 0x100 * y2;
    var x := Le32(b0, b1, b2, b3);
    assert x == b0 + 0x100 * y1;
    assert x / 0x100 == y1 && y1 / 0x100 == y2 && y2 / 0x100 == b3;
  }

  lemma OperandInBytes(x: word, o: seq<byte>)
    requires |o| == 4
    ensures OperandAt(Bytes32(x), 0) == x && Bytes32(OperandAt(o, 0)) == o
  {
    Bytes32Inverse(o[0], o[1], o[2], o[3]);
  }

  lemma FilteredAtBranch(op: byte, operand: seq<byte>, rest: seq<byte>, pos: nat, extended: bool, forward: bool)
    requires IsBranch(op, extended) && |operand| == 4
    ensures E8E9([op] + operand + rest, pos, extended, forward) ==
            [op] + Bytes32(Moved(OperandAt(operand, 0), OffsetAt(pos + 1), forward))
            + E8E9(rest, pos + 5, extended, forward)
  {
    var s := [op] + operand + rest;
    assert s[5..] == rest;
    assert s[1] == operand[0] && s[2] == operand[1] && s[3] == operand[2] && s[4] == operand[3];
  }

  lemma FilteredElsewhere(op: byte, rest: seq<byte>, pos: nat, extended: bool, forward: bool)
    requires !IsBranch(op, extended) && |rest| >= 4
    ensures E8E9([op] + rest, pos, extended, forward) == [op] + E8E9(rest, pos + 1, extended, forward)
  {
    assert ([op] + rest)[1..] == rest;
  }

  /** Filtering back and forth restores any block, wherever it starts, whatever its length. */
  lemma {:induction false} E8E9RoundTrip(s: seq<byte>, pos: nat, extended: bool, forward: bool)
    ensures E8E9(E8E9(s, pos, extended, forward), pos, extended, !forward) == s
    decreases |s|
  {
    hide Bytes32, OperandAt, Moved, OffsetAt, IsBranch;
    if |s| > 4 {
      hide E8E9;
      var op := s[0];
      if IsBranch(op, extended) {
        var operand, rest, offset := s[1..5], s[5..], OffsetAt(pos + 1);
        var moved := Moved(OperandAt(operand, 0), offset, forward);
        assert s == [op] + operand + rest;
        FilteredAtBranch(op, operand, rest, pos, extended, forward);
        FilteredAtBranch(op, Bytes32(moved), E8E9(rest, pos + 5, extended, forward), pos, extended, !forward);
        OperandInBytes(moved, operand);
        MovedBackAndForth(OperandAt(operand, 0), offset, forward);
        E8E9RoundTrip(rest, pos + 5, extended, forward);
      } else {
        var rest := s[1..];
        assert s == [op] + rest;
        FilteredElsewhere(op, rest, pos, extended, forward);
        FilteredElsewhere(op, E8E9(rest, pos + 1, extended, forward), pos, extended, !forward);
        E8E9RoundTrip(rest, pos + 1, extended, forward);
      }
    }
  }

  // What the x86 filter does, byte by byte and without its transform.

  /** The signed little-endian number of four bytes. */
  ghost function SignedAt(s: seq<byte>, i: nat): int
    requires i + 4 <= |s|
  {
    var x := Octet(s, i) + 0x100 * Octet(s, i + 1) + 0x1_0000 * Octet(s, i + 2) + 0x100_0000 * Octet(s, i + 3);
    if x >= 0x8000_0000 then x - 0x1_0000_0000 else x
  }

  /** A call, or with `extended` also a jump, with four bytes behind it. */
  predicate Branches(s: seq<byte>, k: nat, extended: bool) {
    k + 4 < |s| && (s[k] == 0xE8 || (extended && s[k] == 0xE9))
  }

  /** The scan comes to `k`: byte after byte, but past the operands of branches. */
  ghost predicate Stands(s: seq<byte>, k: nat, extended: bool) {
    k == 0 || (Stands(s, k - 1, extended) && !Branches(s, k - 1, extended))
    || (k >= 5 && Stands(s, k - 5, extended) && Branches(s, k - 5, extended))
  }

  /** The operand at `i`, taken from -offset to 2^24, has gone down by the offset, in a circle; any other has stayed. */
  ghost predicate OperandMoved(out: seq<byte>, s: seq<byte>, i: nat, pos: nat) {
    i + 4 <= |s| == |out| &&
    var a, r, offset := SignedAt(s, i), SignedAt(out, i), (pos + i) % 0x100_0000;
    r == if 0 <= a < 0x100_0000 then a - offset else if 0 - offset <= a < 0 then a + 0x100_0000 else a
  }

  /** Where the scan stands at `k`: its byte stays, and behind a branch the operand is moved. */
  ghost predicate ScannedAt(out: seq<byte>, s: seq<byte>, k: nat, pos: nat, extended: bool) {
    && k < |s| == |out|
    && (Stands(s, k, extended) ==> out[k] == s[k])
    && (Stands(s, k, extended) && Branches(s, k, extended) ==> OperandMoved(out, s, k + 1, pos))
  }

  /** The scan from the fifth byte on, if a branch is at the front. */
  lemma {:induction false} StandsAfterBranch(s: seq<byte>, k: nat, extended: bool)
    requires Branches(s, 0, extended)
    ensures 1 <= k < 5 ==> !Stands(s, k, extended)
    ensures k >= 5 ==> (Stands(s, k, extended) <==> Stands(s[5..], k - 5, extended))
  {
    if k >= 1 {
      StandsAfterBranch(s, k - 1, extended);
      if k > 5 {
        StandsAfterBranch(s, k - 5, extended);
        assert Branches(s, k - 1, extended) == Branches(s[5..], k - 6, extended);
        if k >= 10 {
          assert Branches(s, k - 5, extended) == Branches(s[5..], k - 10, extended);
        }
      }
    }
  }

  lemma {:induction false} StandsAfterOther(s: seq<byte>, k: nat, extended: bool)
    requires s != [] && !Branches(s, 0, extended) && k >= 1
    ensures Stands(s, k, extended) <==> Stands(s[1..], k - 1, extended)
  {
    if k > 1 {
      StandsAfterOther(s, k - 1, extended);
      assert Branches(s, k - 1, extended) == Branches(s[1..], k - 2, extended);
      if k > 5 {
        StandsAfterOther(s, k - 5, extended);
        assert Branches(s, k - 5, extended) == Branches(s[1..], k - 6, extended);
      }
    }
  }

  /** Wherever the scan does not stand, it is inside an operand. */
  lemma {:induction false} StandsOrInside(s: seq<byte>, k: nat, extended: bool) returns (d: nat)
    requires !Stands(s, k, extended)
    ensures 1 <= d <= 4 && d <= k && Stands(s, k - d, extended) && Branches(s, k - d, extended)
  {
    if Stands(s, k - 1, extended) {
      d := 1;
    } else {
      d := StandsOrInside(s, k - 1, extended);
      d := d + 1;
    }
  }

  lemma OperandRotates(out: seq<byte>, s: seq<byte>, i: nat, pos: nat)
    requires i + 4 <= |s| == |out|
    requires OperandAt(out, i) == ToRelative(OperandAt(s, i), (pos + i) % 0x100_0000)
    ensures OperandMoved(out, s, i, pos)
  {
    RotatesRange(OperandAt(s, i), (pos + i) % 0x100_0000);
  }

  /** At every place the scan comes to, in every block. */
  lemma {:induction false} ScansExactly(s: seq<byte>, k: nat, pos: nat, extended: bool)
    requires k < |s|
    ensures ScannedAt(E8E9(s, pos, extended, true), s, k, pos, extended)
    decreases |s|
  {
    hide E8E9, ToRelative, OperandMoved, Stands, Bytes32;
    var out := E8E9(s, pos, extended, true);
    if |s| <= 4 {
      ShortStays(s, pos, extended);
    } else if IsBranch(s[0], extended) {
      var operand, rest := s[1..5], s[5..];
      assert s == [s[0]] + operand + rest;
      FilteredAtBranch(s[0], operand, rest, pos, extended, true);
      var tail := E8E9(rest, pos + 5, extended, true);
      StandsAfterBranch(s, k, extended);
      if k == 0 {
        OperandInBytes(ToRelative(OperandAt(operand, 0), OffsetAt(pos + 1)), operand);
        OperandRotates(out, s, 1, pos);
      } else if k >= 5 {
        ScansExactly(rest, k - 5, pos + 5, extended);
        if Branches(s, k, extended) {
          MovedInTail(out, s, k, pos, 5);
        }
      }
    } else {
      assert s == [s[0]] + s[1..];
      FilteredElsewhere(s[0], s[1..], pos, extended, true);
      if k > 0 {
        StandsAfterOther(s, k, extended);
        ScansExactly(s[1..], k - 1, pos + 1, extended);
        if Branches(s, k, extended) {
          MovedInTail(out, s, k, pos, 1);
        }
      }
    }
  }

  lemma ScansAll(s: seq<byte>, pos: nat, extended: bool)
    ensures forall k :: 0 <= k < |s| ==> ScannedAt(E8E9(s, pos, extended, true), s, k, pos, extended)
  {
    forall k | 0 <= k < |s|
      ensures ScannedAt(E8E9(s, pos, extended, true), s, k, pos, extended)
    {
      ScansExactly(s, k, pos, extended);
    }
  }

  lemma ShortStays(s: seq<byte>, pos: nat, extended: bool)
    requires |s| <= 4
    ensures E8E9(s, pos, extended, true) == s
  {
  }

  lemma MovedInTail(out: seq<byte>, s: seq<byte>, k: nat, pos: nat, n: nat)
    requires n <= k && k + 5 <= |s| == |out|
    ensures OperandMoved(out[n..], s[n..], k + 1 - n, pos + n) ==> OperandMoved(out, s, k + 1, pos)
  {
    assert SignedAt(s[n..], k + 1 - n) == SignedAt(s, k + 1);
    assert SignedAt(out[n..], k + 1 - n) == SignedAt(out, k + 1);
  }

  // ---------- ARM: BL ----------

  /** The word with its low 24 bits moved down, or up, by the word's own index in the file. */
  function MoveBranch(x: word, index: nat, forward: bool): word {
    var low := x % FILE_SIZE;
    (if forward then (low - index) % FILE_SIZE else (low + index) % FILE_SIZE) + 0xEB00_0000
  }

  ghost function Arm(s: seq<byte>, pos: nat, forward: bool): (r: seq<byte>)
    ensures |r| == |s|
  {
    if |s| <= 3 then s
    else (if s[3] == 0xEB then Bytes32(MoveBranch(OperandAt(s, 0), pos / 4, forward)) else s[..4])
         + Arm(s[4..], pos + 4, forward)
  }

  /** What the ARM filter does to the word at `i`, without its transform: a branch has its low 24 bits moved down by the
      word's own index in the file, modulo 2^24; any other word stays. */
  ghost predicate WordMoved(out: seq<byte>, s: seq<byte>, i: nat, pos: nat) {
    && i + 4 <= |s| == |out| && out[i + 3] == s[i + 3]
    && (if s[i + 3] == 0xEB then (Low24(out, i) + (pos + i) / 4) % 0x100_0000 == Low24(s, i)
        else out[i..i + 4] == s[i..i + 4])
  }

  ghost function Low24(s: seq<byte>, i: nat): nat
    requires i + 3 <= |s|
  {
    Octet(s, i) + 0x100 * Octet(s, i + 1) + 0x1_0000 * Octet(s, i + 2)
  }

  lemma {:induction false} MovesEachWord(s: seq<byte>, i: nat, pos: nat)
    requires i % 4 == 0 && i + 4 <= |s|
    ensures WordMoved(Arm(s, pos, true), s, i, pos)
    decreases i
  {
    hide Bytes32, OperandAt, MoveBranch, WordMoved;
    var out := Arm(s, pos, true);
    var word, tail := out[..4], Arm(s[4..], pos + 4, true);
    ArmAt(s, 0, pos);
    assert s[0..] == s && out == word + tail && out[4..] == tail;
    if i == 0 {
      if s[3] == 0xEB {
        assert out[..4] == Bytes32(MoveBranch(OperandAt(s, 0), pos / 4, true));
      } else {
        OperandInBytes(0, s[..4]);
        assert OperandAt(s[..4], 0) == OperandAt(s, 0) by {
          SameOperand(s);
        }
        assert out[..4] == s[..4];
      }
      FirstWordMoved(out, s, pos);
    } else {
      MovesEachWord(s[4..], i - 4, pos + 4);
      WordInTail(out, s, i, pos);
    }
  }

  lemma SameOperand(s: seq<byte>)
    requires |s| >= 4
    ensures OperandAt(s[..4], 0) == OperandAt(s, 0)
  {
  }

  lemma FirstWordMoved(out: seq<byte>, s: seq<byte>, pos: nat)
    requires |out| == |s| >= 4
    requires out[..4] == if s[3] == 0xEB then Bytes32(MoveBranch(OperandAt(s, 0), pos / 4, true)) else s[..4]
    ensures WordMoved(out, s, 0, pos)
  {
    assert out[0] == out[..4][0] && out[1] == out[..4][1] && out[2] == out[..4][2] && out[3] == out[..4][3];
    if s[3] == 0xEB {
      var low := Low24(s, 0);
      assert OperandAt(s, 0) == low + 0xEB00_0000;
      LowOfWord(low, 0xEB);
      var moved := (low - pos / 4) % FILE_SIZE;
      assert Low24(out, 0) + 0x100_0000 * Octet(out, 3) == moved + 0xEB00_0000;
      LowOfWord(Low24(out, 0), Octet(out, 3));
      LowOfWord(moved, 0xEB);
      MovedBack(low, 0 - pos / 4);
    } else {
      assert s[3] == s[..4][3];
    }
  }

  lemma LowOfWord(low: nat, top: nat)
    requires low < FILE_SIZE
    ensures (low + 0x100_0000 * top) % FILE_SIZE == low && (low + 0x100_0000 * top) / FILE_SIZE == top
  {
    ModUnique(low + 0x100_0000 * top, top, low, FILE_SIZE);
  }

  lemma WordInTail(out: seq<byte>, s: seq<byte>, i: nat, pos: nat)
    requires 4 <= i && i + 4 <= |s| == |out| && WordMoved(out[4..], s[4..], i - 4, pos + 4)
    ensures WordMoved(out, s, i, pos)
  {
    assert out[4..][i - 4..i] == out[i..i + 4] && s[4..][i - 4..i] == s[i..i + 4];
  }

  /** Bytes behind the last whole word stay. */
  lemma {:induction false} TailStays(s: seq<byte>, k: nat, pos: nat)
    requires k < |s| && k - k % 4 + 4 > |s|
    ensures Arm(s, pos, true)[k] == s[k]
    decreases |s|
  {
    if |s| > 3 {
      TailStays(s[4..], k - 4, pos + 4);
    }
  }

  /** Every whole word is moved or stays, and the bytes behind the last one stay. */
  ghost predicate AllMoved(out: seq<byte>, s: seq<byte>, pos: nat) {
    && |out| == |s|
    && (forall i :: 0 <= i && i % 4 == 0 && i + 4 <= |s| ==> WordMoved(out, s, i, pos))
    && (forall k :: |s| - |s| % 4 <= k < |s| ==> out[k] == s[k])
  }

  lemma ArmMoves(out: seq<byte>, s: seq<byte>, pos: nat)
    requires out == Arm(s, pos, true)
    ensures AllMoved(out, s, pos)
  {
    forall i | 0 <= i && i % 4 == 0 && i + 4 <= |s|
      ensures WordMoved(out, s, i, pos)
    {
      MovesEachWord(s, i, pos);
    }
    forall k | |s| - |s| % 4 <= k < |s|
      ensures out[k] == s[k]
    {
      TailStays(s, k, pos);
    }
  }

  lemma ArmFromStart(f: seq<byte>, b: seq<byte>, start: nat)
    requires f == b
    ensures f[0..] == b[0..] && f[..0] + Arm(b[0..], start + 0, true) == Arm(b, start, true)
  {
    assert b[0..] == b;
  }

  /** Fewer than four bytes are left, and they are those of the block. */
  lemma ArmAtEnd(f: seq<byte>, b: seq<byte>, i: nat, start: nat)
    requires i <= |b| <= |f| && |b| - i <= 3 && f[i..|b|] == b[i..]
    requires f[..i] + Arm(b[i..], start + i, true) == Arm(b, start, true)
    ensures f[..|b|] == Arm(b, start, true)
  {
    assert f[..|b|] == f[..i] + f[i..|b|];
  }

  lemma MoveBranchBack(x: word, index: nat, forward: bool)
    requires x / FILE_SIZE == 0xEB
    ensures MoveBranch(MoveBranch(x, index, forward), index, !forward) == x
    ensures Bytes32(MoveBranch(x, index, forward))[3] == 0xEB
  {
    var low := x % FILE_SIZE;
    var shift := if forward then 0 - index else index;
    MovedBack(low, shift);
    WithTopByte((low + shift) % FILE_SIZE);
  }

  lemma MovedBack(low: nat, shift: int)
    requires low < FILE_SIZE
    ensures ((low + shift) % FILE_SIZE - shift) % FILE_SIZE == low
  {
    ModUnique((low + shift) % FILE_SIZE - shift, -((low + shift) / FILE_SIZE), low, FILE_SIZE);
  }

  lemma WithTopByte(low: nat)
    requires low < FILE_SIZE
    ensures (low + 0xEB00_0000) % FILE_SIZE == low && Bytes32(low + 0xEB00_0000)[3] == 0xEB
  {
    ModUnique(low + 0xEB00_0000, 0xEB, low, FILE_SIZE);
  }

  lemma {:induction false} ArmRoundTrip(s: seq<byte>, pos: nat, forward: bool)
    ensures Arm(Arm(s, pos, forward), pos, !forward) == s
    decreases |s|
  {
    if |s| > 3 {
      var r := Arm(s, pos, forward);
      ArmRoundTrip(s[4..], pos + 4, forward);
      assert r[4..] == Arm(s[4..], pos + 4, forward);
      assert s == s[..4] + s[4..];
      if s[3] == 0xEB {
        var x := OperandAt(s, 0);
        MoveBranchBack(x, pos / 4, forward);
        Bytes32Inverse(s[0], s[1], s[2], s[3]);
        var b := Bytes32(MoveBranch(x, pos / 4, forward));
        assert r[0] == b[0] && r[1] == b[1] && r[2] == b[2] && r[3] == b[3];
        assert s[..4] == [s[0], s[1], s[2], s[3]];
      } else {
        assert r[..4] == s[..4];
      }
    }
  }

  // ---------- the loops over the circular window ----------

  /** The block of `n` bytes from absolute position `start` of the window. */
  ghost function Block(w: seq<byte>, start: nat, n: nat): (b: seq<byte>)
    requires |w| > 0
    ensures |b| == n
  {
    seq(n, i requires 0 <= i < n => w[(start + i) % |w|])
  }

  lemma BlockByte(w: seq<byte>, start: nat, n: nat, i: nat, k: nat)
    requires |w| > 0 && i + k < n
    ensures w[((start + i) % |w| + k) % |w|] == Block(w, start, n)[i + k]
  {
    ShiftedMod(start + i, k, |w|);
  }

  lemma ShiftedMod(x: nat, k: nat, w: nat)
    requires w > 0
    ensures (x % w + k) % w == (x + k) % w
  {
    assert x % w + k == x + k + (-(x / w)) * w;
    ModShift(x + k, -(x / w), w);
  }

  /** The part of the output from position `i` on, when the scan stands there. */
  ghost function Rest(b: seq<byte>, i: nat, start: nat, extended: bool): seq<byte>
    requires i <= |b|
  {
    E8E9(b[i..], start + i, extended, true)
  }

  lemma RestAtBranch(b: seq<byte>, i: nat, start: nat, extended: bool)
    requires i + 4 < |b| && IsBranch(b[i], extended)
    ensures Rest(b, i, start, extended) ==
            [b[i]] + Bytes32(ToRelative(OperandAt(b, i + 1), OffsetAt(start + i + 1))) + Rest(b, i + 5, start, extended)
  {
    assert b[i..][5..] == b[i + 5..];
  }

  lemma RestFromStart(f: seq<byte>, b: seq<byte>, start: nat, extended: bool)
    requires f == b
    ensures f[0..] == b[0..] && f[..0] + Rest(b, 0, start, extended) == E8E9(b, start, extended, true)
  {
    assert b[0..] == b;
  }

  /** At most four bytes are left, and they are those of the block. */
  lemma RestAtEnd(f: seq<byte>, b: seq<byte>, i: nat, start: nat, extended: bool)
    requires i <= |b| <= |f| && |b| - i <= 4 && f[i..|b|] == b[i..]
    requires f[..i] + Rest(b, i, start, extended) == E8E9(b, start, extended, true)
    ensures f[..|b|] == E8E9(b, start, extended, true)
  {
    assert f[..|b|] == f[..i] + f[i..|b|];
  }

  lemma RestElsewhere(b: seq<byte>, i: nat, start: nat, extended: bool)
    requires i < |b| && (i + 4 >= |b| || !IsBranch(b[i], extended))
    ensures i + 4 < |b| ==> Rest(b, i, start, extended) == [b[i]] + Rest(b, i + 1, start, extended)
    ensures i + 4 >= |b| ==> Rest(b, i, start, extended) == b[i..]
  {
    assert b[i..][1..] == b[i + 1..];
  }

  /** A buffer that still agrees with the block from `i` on holds the operand there. */
  lemma OperandBytes(f: seq<byte>, b: seq<byte>, i: nat)
    requires i + 4 <= |b| <= |f| && f[i..|b|] == b[i..]
    ensures f[i..i + 4] == Bytes32(OperandAt(b, i)) && f[i + 4..|b|] == b[i + 4..]
  {
    var n := |b|;
    var tail := f[i..n];
    assert f[i..i + 4] == tail[..4] && f[i + 4..n] == tail[4..];
    assert b[i..][..4] == [b[i], b[i + 1], b[i + 2], b[i + 3]] && b[i..][4..] == b[i + 4..];
    Bytes32Inverse(b[i], b[i + 1], b[i + 2], b[i + 3]);
  }

  lemma FirstByte(f: seq<byte>, b: seq<byte>, i: nat)
    requires i < |b| <= |f| && f[i..|b|] == b[i..]
    ensures f[i] == b[i] && f[i + 1..|b|] == b[i + 1..]
  {
    var n := |b|;
    var tail := f[i..n];
    assert f[i] == tail[0] && b[i] == b[i..][0];
    assert f[i + 1..n] == tail[1..] && b[i + 1..] == b[i..][1..];
  }

  lemma JoinTwo(f: seq<byte>, i: nat, before: seq<byte>, x: seq<byte>, rest: seq<byte>)
    requires i + |x| <= |f| && f[..i] == before && f[i..i + |x|] == x
    ensures f[..i + |x|] + rest == before + (x + rest)
  {
    var j := i + |x|;
    assert f[..j] == f[..i] + f[i..j];
  }

  lemma JoinThree(f: seq<byte>, i: nat, before: seq<byte>, x: seq<byte>, y: seq<byte>, rest: seq<byte>)
    requires i + |x| + |y| <= |f| && f[..i + |x|] == before + x && f[i + |x|..i + |x| + |y|] == y && |before| == i
    ensures f[..i + |x| + |y|] + rest == before + (x + y + rest)
  {
    var j, k := i + |x|, i + |x| + |y|;
    assert f[..k] == f[..j] + f[j..k];
  }

  /** One step of the ARM filter, in terms of the whole block. */
  lemma ArmAt(b: seq<byte>, i: nat, pos: nat)
    requires i + 4 <= |b|
    ensures Arm(b[i..], pos, true) ==
            (if b[i + 3] == 0xEB then Bytes32(MoveBranch(OperandAt(b, i), pos / 4, true)) else Bytes32(OperandAt(b, i)))
            + Arm(b[i + 4..], pos + 4, true)
  {
    var s := b[i..];
    assert s[4..] == b[i + 4..];
    assert s[..4] == [b[i], b[i + 1], b[i + 2], b[i + 3]];
    Bytes32Inverse(b[i], b[i + 1], b[i + 2], b[i + 3]);
  }

  class Filters {
    const window: array<byte>
    const filtered: array<byte>
    const solidOffset: nat

    constructor (windowSize: nat, solidOffset: nat)
      requires 0 < windowSize
      ensures fresh(window) && fresh(filtered) && window != filtered
      ensures window.Length == filtered.Length == windowSize
    {
      window, filtered := new byte[windowSize], new byte[windowSize];
      this.solidOffset := solidOffset;
    }

    ghost predicate Valid() {
      window != filtered && window.Length == filtered.Length > 0
    }

    ghost function BlockAt(start: nat, n: nat): (b: seq<byte>)
      reads window
      requires window.Length > 0
      ensures |b| == n
    {
      Block(window[..], solidOffset + start, n)
    }

    /** The block lies in the window around its end. */
    lemma BlockIsInWindow(start: nat, n: nat, i: nat)
      requires window.Length > 0 && i < n
      ensures BlockAt(start, n)[i] == window[(solidOffset + start + i) % window.Length]
    {
    }

    method CircularMemcpy(start: nat, n: nat)
      requires Valid() && n <= window.Length
      modifies filtered
      ensures filtered[..n] == BlockAt(start, n)
    {
      forall i | 0 <= i < n {
        filtered[i] := window[(solidOffset + start + i) % window.Length];
      }
    }

    method BlockByteAt(start: nat, ghost n: nat, i: nat) returns (x: byte)
      requires Valid() && i < n
      ensures x == BlockAt(start, n)[i]
    {
      x := window[(solidOffset + start + i) % window.Length];
    }

    method WindowByte(start: nat, ghost n: nat, ghost i: nat, slot: nat, k: nat) returns (x: byte)
      requires Valid() && i + k < n && slot == (solidOffset + start + i) % window.Length
      ensures x == BlockAt(start, n)[i + k]
    {
      BlockByte(window[..], solidOffset + start, n, i, k);
      x := window[(slot + k) % window.Length];
    }

    method ReadFilterData(start: nat, ghost n: nat, i: nat) returns (x: word)
      requires Valid() && i + 4 <= n
      ensures x == OperandAt(BlockAt(start, n), i)
    {
      var slot := (solidOffset + start + i) % window.Length;
      var b0 := WindowByte(start, n, i, slot, 0);
      var b1 := WindowByte(start, n, i, slot, 1);
      var b2 := WindowByte(start, n, i, slot, 2);
      var b3 := WindowByte(start, n, i, slot, 3);
      x := Le32(b0, b1, b2, b3);
    }

    method WriteFilterData(i: nat, x: word, ghost n: nat)
      requires i + 4 <= n <= filtered.Length
      modifies filtered
      ensures filtered[..i] == old(filtered[..i])
      ensures filtered[i..i + 4] == Bytes32(x)
      ensures filtered[i + 4..n] == old(filtered[i + 4..n])
    {
      var b := Bytes32(x);
      filtered[i], filtered[i + 1], filtered[i + 2], filtered[i + 3] := b[0], b[1], b[2], b[3];
    }

    /** Rewrite one operand. */
    method FilterOperand(start: nat, n: nat, i: nat)
      requires Valid() && i + 4 <= n <= window.Length
      requires filtered[i..n] == BlockAt(start, n)[i..]
      modifies filtered
      ensures filtered[..i] == old(filtered[..i])
      ensures filtered[i..i + 4] == Bytes32(ToRelative(OperandAt(BlockAt(start, n), i), OffsetAt(start + i)))
      ensures filtered[i + 4..n] == BlockAt(start, n)[i + 4..]
    {
      var offset := (i + start) % FILE_SIZE;
      var addr := ReadFilterData(start, n, i);
      OperandBytes(filtered[..], BlockAt(start, n), i);
      if Negative(addr) {
        if !Negative(Add32(addr, offset)) {
          WriteFilterData(i, Add32(addr, FILE_SIZE), n);
        }
      } else {
        if Negative(Sub32(addr, FILE_SIZE)) {
          WriteFilterData(i, Sub32(addr, offset), n);
        }
      }
    }

    /** The x86 filter: `filtered` becomes the block with its branch operands made relative. Byte by byte: wherever the
        scan comes to, the byte stays and a branch has its operand moved. */
    method RunE8E9(start: nat, n: nat, extended: bool)
      requires Valid() && n <= window.Length
      modifies filtered
      ensures filtered[..n] == E8E9(BlockAt(start, n), start, extended, true)
      ensures forall k :: 0 <= k < n ==> ScannedAt(filtered[..n], BlockAt(start, n), k, start, extended)
    {
      hide ScannedAt, Block, E8E9, Rest;
      CircularMemcpy(start, n);
      ghost var b := BlockAt(start, n);
      var i := 0;
      RestFromStart(filtered[..n], b, start, extended);
      while i < n - 4
        invariant 0 <= i <= n && b == BlockAt(start, n)
        invariant filtered[i..n] == b[i..]
        invariant filtered[..i] + Rest(b, i, start, extended) == E8E9(b, start, extended, true)
      {
        i := ScanStep(start, n, i, extended);
      }
      RestAtEnd(filtered[..], b, i, start, extended);
      ScansAll(b, start, extended);
    }

    /** Look at one byte, and at the operand behind it if it is a branch. */
    method ScanStep(start: nat, n: nat, i0: nat, extended: bool) returns (i: nat)
      requires Valid() && i0 + 4 < n <= window.Length
      requires filtered[i0..n] == BlockAt(start, n)[i0..]
      modifies filtered
      ensures i0 < i <= n && filtered[i..n] == BlockAt(start, n)[i..]
      ensures filtered[..i] + Rest(BlockAt(start, n), i, start, extended) ==
              old(filtered[..i0]) + Rest(BlockAt(start, n), i0, start, extended)
    {
      hide Block, Bytes32, OperandAt, ToRelative, Rest, E8E9;
      ghost var b, before := BlockAt(start, n), filtered[..i0];
      i := i0;
      var op := BlockByteAt(start, n, i);
      FirstByte(filtered[..], b, i);
      i := i + 1;
      if op == 0xE8 || (extended && op == 0xE9) {
        FilterOperand(start, n, i);
        i := i + 4;
        RestAtBranch(b, i0, start, extended);
        JoinThree(filtered[..], i0, before, [op], filtered[i0 + 1..i], Rest(b, i, start, extended));
      } else {
        RestElsewhere(b, i0, start, extended);
        JoinTwo(filtered[..], i0, before, [op], Rest(b, i, start, extended));
      }
    }

    /** The ARM filter: each whole word that is a branch is moved, and nothing else changes. */
    method RunArm(start: nat, n: nat)
      requires Valid() && n <= window.Length
      modifies filtered
      ensures filtered[..n] == Arm(BlockAt(start, n), start, true)
      ensures AllMoved(filtered[..n], BlockAt(start, n), start)
    {
      hide Block, Bytes32, MoveBranch, Arm, AllMoved;
      CircularMemcpy(start, n);
      ghost var b := BlockAt(start, n);
      var i := 0;
      ArmFromStart(filtered[..n], b, start);
      while i < n - 3
        invariant 0 <= i <= n && b == BlockAt(start, n)
        invariant filtered[i..n] == b[i..]
        invariant filtered[..i] + Arm(b[i..], start + i, true) == Arm(b, start, true)
      {
        ArmStep(start, n, i);
        i := i + 4;
      }
      ArmAtEnd(filtered[..], b, i, start);
      ArmMoves(filtered[..n], b, start);
    }

    method ArmStep(start: nat, n: nat, i: nat)
      requires Valid() && i + 3 < n <= window.Length
      requires filtered[i..n] == BlockAt(start, n)[i..]
      modifies filtered
      ensures filtered[i + 4..n] == BlockAt(start, n)[i + 4..]
      ensures filtered[..i + 4] + Arm(BlockAt(start, n)[i + 4..], start + i + 4, true) ==
              old(filtered[..i]) + Arm(BlockAt(start, n)[i..], start + i, true)
    {
      hide Block, OperandAt, Bytes32, MoveBranch, Arm;
      ghost var b, before := BlockAt(start, n), filtered[..i];
      OperandBytes(filtered[..], b, i);
      ArmAt(b, i, start + i);
      ghost var word := filtered[i..i + 4];
      var op := BlockByteAt(start, n, i + 3);
      if op == 0xEB {
        var offset := ReadFilterData(start, n, i);
        offset := MoveBranch(offset, (start + i) / 4, true);
        WriteFilterData(i, offset, n);
        word := Bytes32(offset);
      }
      JoinTwo(filtered[..], i, before, word, Arm(b[i + 4..], start + i + 4, true));
    }
  }
}
