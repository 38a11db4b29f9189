/**
 details::itoa: digits are written last one first, then the buffer is reversed in place.
 Zero has no digits at all, which details::atoi reads back as zero all the same.
 */
module Itoa {
  import opened Strings
  import opened DecimalText
  import opened FixText

  /** Half the range of a signed type of that many bytes. */
  function Half(size: nat): nat {
    if size == 1 then 0x80 else if size == 2 then 0x8000 else if size == 4 then 0x8000_0000 else 0x8000_0000_0000_0000
  }

  /** The smallest value of a signed type, which is its own negation where negation wraps around. */
  predicate Smallest(num: int, size: nat, signed: bool) {
    signed && num == -(Half(size) as int)
  }

  /** The values of an integer type. */
  predicate OfType(num: int, size: nat, signed: bool) {
    if signed then -(Half(size) as int) <= num < Half(size) else 0 <= num < 2 * Half(size)
  }

  /** Each digit as far below '0' as it should be above. */
  function Mirrored(s: string): (r: string)
    ensures |r| == |s|
  {
    seq(|s|, i requires 0 <= i < |s| => MirrorChar(s[i]))
  }

  function MirrorChar(c: char): char {
    if '0' <= c <= '9' then (96 - c as int) as char else c
  }

  /** What is left in the buffer for a number: nothing for zero, its decimal text, or garbled digits for the smallest value. */
  function Written(num: int, size: nat, signed: bool): string {
    if num == 0 then "" else if Smallest(num, size, signed) then "-" + Mirrored(Digits(-num)) else Decimal(num)
  }

  // ---- digits backwards

  /** The quotient as C++ computes it, towards zero. */
  function Quotient(n: int): int {
    if n >= 0 then n / 10 else -(-n / 10)
  }

  /** '0' + n % 10, the remainder having the sign of n. */
  function DigitOf(n: int): char {
    if n >= 0 then DigitChar(n % 10) else MirrorChar(DigitChar(-n % 10))
  }

  /** The digits of n, last one first. */
  function Backwards(n: int): string
    decreases if n < 0 then -n else n
  {
    if n == 0 then "" else [DigitOf(n)] + Backwards(Quotient(n))
  }

  lemma {:induction false} BackwardsMirrored(n: nat)
    ensures Backwards(-(n as int)) == Mirrored(Backwards(n))
  {
    if n > 0 {
      BackwardsMirrored(n / 10);
      assert Quotient(-(n as int)) == -(n / 10 as int) && Quotient(n) == n / 10;
      assert Mirrored([DigitOf(n)] + Backwards(n / 10)) == [MirrorChar(DigitOf(n))] + Mirrored(Backwards(n / 10));
    }
  }

  function Reversed(s: string): (r: string)
    ensures |r| == |s|
  {
    if s == "" then "" else Reversed(s[1..]) + [s[0]]
  }

  lemma {:induction false} ReversedAt(s: string, k: nat)
    requires k < |s|
    ensures Reversed(s)[k] == s[|s| - 1 - k]
  {
    if k < |s| - 1 { ReversedAt(s[1..], k); }
  }

  lemma {:induction false} ReversedAppend(s: string, c: char)
    ensures Reversed(s + [c]) == [c] + Reversed(s)
  {
    if s == "" {
      assert ([c])[1..] == "";
    } else {
      assert (s + [c])[1..] == s[1..] + [c];
      ReversedAppend(s[1..], c);
    }
  }

  lemma {:induction false} BackwardsReversed(n: nat)
    requires n > 0
    ensures Reversed(Backwards(n)) == Digits(n)
  {
    var c := DigitChar(n % 10);
    assert Backwards(n)[1..] == Backwards(n / 10);
    if n >= 10 { BackwardsReversed(n / 10); }
  }

  lemma {:induction false} ReversedMirrored(s: string)
    ensures Reversed(Mirrored(s)) == Mirrored(Reversed(s))
  {
    forall k | 0 <= k < |s| ensures Reversed(Mirrored(s))[k] == Mirrored(Reversed(s))[k] {
      ReversedAt(Mirrored(s), k);
      ReversedAt(s, k);
    }
  }

  /** num = -num, wrapping around. */
  function Negated(num: int, size: nat, signed: bool): int {
    if Smallest(num, size, signed) then num else -num
  }

  /** What is in the buffer before it is reversed. */
  function Unreversed(num: int, size: nat, signed: bool): string {
    if num < 0 then Backwards(Negated(num, size, signed)) + "-" else Backwards(num)
  }

  lemma UnreversedIs(num: int, size: nat, signed: bool)
    ensures Reversed(Unreversed(num, size, signed)) == Written(num, size, signed)
  {
    var n: nat := if num < 0 then -num else num;
    if n > 0 { BackwardsReversed(n); }
    if num < 0 {
      ReversedAppend(Backwards(Negated(num, size, signed)), '-');
      if Smallest(num, size, signed) {
        BackwardsMirrored(n);
        ReversedMirrored(Backwards(n));
      }
    }
  }

  /**
   itoa for a type of `size` bytes. The buffer must be longer than the type is, whatever the number, and must
   hold its text. Negating the smallest value of a signed type is taken to wrap around.
   */
  method Itoa(num: int, size: nat, signed: bool, buf: array<char>, len: nat) returns (ret: int)
    requires len <= buf.Length && OfType(num, size, signed)
    modifies buf
    ensures ret == if len > size && |Written(num, size, signed)| <= len then |Written(num, size, signed)| else -1
    ensures ret >= 0 ==> buf[..ret] == Written(num, size, signed)
  {
    UnreversedIs(num, size, signed);
    var negative := num < 0;
    ret := -1;
    if len < size + 1 { return; }
    var fits, ptr := WriteBackwards(buf, if negative then Negated(num, size, signed) else num, len);
    if !fits { return; }
    if negative {
      if ptr >= len { return; }
      buf[ptr] := '-';
      assert buf[..ptr + 1] == buf[..ptr] + "-";
      ptr := ptr + 1;
    }
    assert buf[..ptr] == Unreversed(num, size, signed);
    ReverseStart(buf, ptr);
    ret := ptr;
  }

  /** The digits of n from the start of the buffer, if they fit. */
  method WriteBackwards(buf: array<char>, n: int, len: nat) returns (fits: bool, ptr: nat)
    requires len <= buf.Length
    modifies buf
    ensures fits <==> |Backwards(n)| <= len
    ensures fits ==> ptr <= len && buf[..ptr] == Backwards(n)
  {
    hide Backwards;
    ptr := 0;
    fits := true;
    var rest := n;
    while rest != 0
      invariant ptr <= len && buf[..ptr] + Backwards(rest) == Backwards(n)
      decreases if rest < 0 then -rest else rest
    {
      BackwardsStep(rest);
      if ptr >= len { fits := false; return; }
      ghost var was := buf[..ptr];
      var c := DigitOf(rest);
      Assoc(was, [c], Backwards(Quotient(rest)));
      buf[ptr] := c;
      assert buf[..ptr + 1] == was + [c];
      ptr := ptr + 1;
      rest := Quotient(rest);
    }
    BackwardsOfZero();
    assert buf[..ptr] + "" == buf[..ptr];
  }

  lemma BackwardsStep(n: int)
    requires n != 0
    ensures Backwards(n) == [DigitOf(n)] + Backwards(Quotient(n))
  {
  }

  lemma BackwardsOfZero()
    ensures Backwards(0) == ""
  {
  }

  /** std::reverse of the first n characters. */
  method ReverseStart(buf: array<char>, n: nat)
    requires n <= buf.Length
    modifies buf
    ensures buf[..n] == Reversed(old(buf[..n]))
  {
    var i, j := 0, n;
    while i + 1 < j
      invariant i + j == n && i <= j + 1
      invariant forall k :: 0 <= k < i ==> buf[k] == old(buf[n - 1 - k]) && buf[n - 1 - k] == old(buf[k])
      invariant forall k :: i <= k < j ==> buf[k] == old(buf[k])
    {
      j := j - 1;
      buf[i], buf[j] := buf[j], buf[i];
      i := i + 1;
    }
    ghost var was := old(buf[..n]);
    forall k | 0 <= k < n ensures buf[k] == Reversed(was)[k] {
      ReversedAt(was, k);
    }
  }

  lemma {:induction false} FoldMirrored(s: string, acc: int)
    requires forall c :: c in s ==> '0' <= c <= '9'
    ensures Fold(Mirrored(s), -acc) == -Fold(s, acc)
    decreases |s|
  {
    if s != "" {
      assert s[0] in s && forall c :: c in s[1..] ==> c in s;
      assert Mirrored(s)[1..] == Mirrored(s[1..]) && Mirrored(s)[0] == MirrorChar(s[0]);
      FoldMirrored(s[1..], acc * 10 + (Signed(s[0]) - 48));
    }
  }

  /** atoi undoes itoa, also for zero; the garbled digits of the smallest value come back as its opposite. */
  lemma ReadsBack(num: int, size: nat, signed: bool)
    ensures Atoi(Written(num, size, signed)) == if Smallest(num, size, signed) then -num else num
    ensures Written(num, size, signed) == "" <==> num == 0
  {
    AtoiDecimal(num);
    if Smallest(num, size, signed) {
      var d := Digits(-num);
      FoldDigits(-num);
      FoldMirrored(d, 0);
      assert Written(num, size, signed)[1..] == Mirrored(d);
    }
  }
}
