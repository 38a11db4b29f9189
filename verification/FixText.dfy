/**
 Numbers in FIX text: what is written for them and the two ways they are read back.
 One char stands for one byte.
 */
module FixText {
  import opened Strings
  import opened DecimalText

  const SOH: char := 1 as char

  /** "{:0w}" of an int: zeros between the sign and the digits. */
  function Padded(n: int, w: nat): string {
    if n < 0 then "-" + Zeros(Digits(-n), if w > 0 then w - 1 else 0) else Zeros(Digits(n), w)
  }

  function Zeros(s: string, w: nat): string
    decreases w - |s|
  {
    if |s| >= w then s else Zeros("0" + s, w)
  }

  /** A char as C++ arithmetic sees it where char is signed. */
  function Signed(c: char): int {
    if c < 128 as char then c as int else c as int - 256
  }

  // ---- details::atoi on a range

  function Fold(s: string, acc: int): int {
    if s == "" then acc else Fold(s[1..], acc * 10 + (Signed(s[0]) - 48))
  }

  function Atoi(s: string): int {
    if s != "" && s[0] == '-' then -Fold(s[1..], 0) else Fold(s, 0)
  }

  /** details::atoi; the character at `begin` is looked at even if the range is empty. */
  method AtoiRange(mem: string, begin: nat, end: nat) returns (r: int)
    requires begin <= end < |mem|
    ensures r == Atoi(mem[begin..end])
  {
    r := 0;
    var i := begin;
    var negative := false;
    if mem[i] == '-' {
      negative := true;
      i := i + 1;
    }
    ghost var s := if i <= end then mem[i..end] else "";
    assert negative && i <= end ==> mem[begin..end][1..] == s;
    while i < end
      invariant i <= end + 1 && Fold(s, 0) == if i <= end then Fold(mem[i..end], r) else r
    {
      assert mem[i..end][1..] == mem[i + 1..end];
      r := r * 10;
      r := r + (Signed(mem[i]) - 48);
      i := i + 1;
    }
    r := if negative then -r else r;
  }

  lemma {:induction false} FoldAppend(s: string, c: char, acc: int)
    ensures Fold(s + [c], acc) == Fold(s, acc) * 10 + (Signed(c) - 48)
    decreases |s|
  {
    if s == "" {
      assert (s + [c])[1..] == "";
    } else {
      assert (s + [c])[1..] == s[1..] + [c];
      FoldAppend(s[1..], c, acc * 10 + (Signed(s[0]) - 48));
    }
  }

  lemma {:induction false} FoldDigits(n: nat)
    ensures Fold(Digits(n), 0) == n
  {
    if n < 10 {
      assert Digits(n)[1..] == "";
    } else {
      FoldDigits(n / 10);
      FoldAppend(Digits(n / 10), DigitChar(n % 10), 0);
    }
  }

  /** Reading a written number back. */
  lemma AtoiDecimal(n: int)
    ensures Atoi(Decimal(n)) == n
  {
    FoldDigits(if n < 0 then -n else n);
    if n < 0 { assert Decimal(n)[1..] == Digits(-n); } else { assert Digits(n)[0] in Digits(n); }
  }

  // ---- std::atoi on a position

  predicate IsDigit(c: char) {
    '0' <= c <= '9'
  }

  predicate IsBlank(c: char) {
    c == ' ' || '\t' <= c <= '\r'
  }

  function DigitsAt(mem: string, i: nat, acc: int): int
    decreases |mem| - i
  {
    if i < |mem| && IsDigit(mem[i]) then DigitsAt(mem, i + 1, acc * 10 + (mem[i] as int - 48)) else acc
  }

  /** std::atoi of the text at i. */
  function StdAtoi(mem: string, i: nat): int
    decreases |mem| - i
  {
    if i >= |mem| then 0
    else if IsBlank(mem[i]) then StdAtoi(mem, i + 1)
    else if mem[i] == '-' then -DigitsAt(mem, i + 1, 0)
    else if mem[i] == '+' then DigitsAt(mem, i + 1, 0)
    else DigitsAt(mem, i, 0)
  }

  lemma {:induction false} DigitsAtReads(mem: string, i: nat, s: string, acc: int)
    requires StartsAt(mem, i, s) && forall c :: c in s ==> IsDigit(c)
    requires i + |s| < |mem| && !IsDigit(mem[i + |s|])
    ensures DigitsAt(mem, i, acc) == Fold(s, acc)
    decreases |s|
  {
    if s != "" {
      FirstChar(mem, i, s);
      assert s[0] in s && forall c :: c in s[1..] ==> c in s;
      DigitsAtReads(mem, i + 1, s[1..], acc * 10 + (s[0] as int - 48));
    }
  }

  lemma {:induction false} FoldZeros(s: string, w: nat)
    requires forall c :: c in s ==> IsDigit(c)
    ensures Fold(Zeros(s, w), 0) == Fold(s, 0) && forall c :: c in Zeros(s, w) ==> IsDigit(c)
    ensures s != "" ==> Zeros(s, w) != ""
    decreases w - |s|
  {
    if |s| < w {
      assert ("0" + s)[1..] == s;
      FoldZeros("0" + s, w);
    }
  }

  /** std::atoi reads a padded number back, up to the first character that is no digit. */
  lemma StdAtoiPadded(mem: string, i: nat, n: int, w: nat)
    requires StartsAt(mem, i, Padded(n, w)) && i + |Padded(n, w)| < |mem| && !IsDigit(mem[i + |Padded(n, w)|])
    ensures StdAtoi(mem, i) == n
  {
    var m: nat := if n < 0 then -n else n;
    var v: nat := if n < 0 && w > 0 then w - 1 else if n < 0 then 0 else w;
    var z := Zeros(Digits(m), v);
    FoldDigits(m);
    FoldZeros(Digits(m), v);
    if n < 0 {
      assert Padded(n, w) == "-" + z;
      FirstChar(mem, i, "-" + z);
      assert ("-" + z)[1..] == z;
      DigitsAtReads(mem, i + 1, z, 0);
    } else {
      FirstChar(mem, i, z);
      assert z[0] in z;
      DigitsAtReads(mem, i, z, 0);
    }
  }

  lemma StdAtoiDecimal(mem: string, i: nat, n: int)
    requires StartsAt(mem, i, Decimal(n)) && i + |Decimal(n)| < |mem| && !IsDigit(mem[i + |Decimal(n)|])
    ensures StdAtoi(mem, i) == n
  {
    StdAtoiPadded(mem, i, n, 0);
  }

  /** White space in front and a plus sign make no difference; the digits end at the first character that is none. */
  lemma {:induction false} StdAtoiParts(mem: string, i: nat, blanks: string, sign: string, n: nat)
    requires (forall c :: c in blanks ==> c in " \t\n\r" || c as int == 11 || c as int == 12) && (sign == "" || sign == "+" || sign == "-")
    requires StartsAt(mem, i, blanks + (sign + Digits(n)))
    requires var e := i + |blanks| + |sign| + |Digits(n)|; e < |mem| && !IsDigit(mem[e])
    ensures StdAtoi(mem, i) == var v: int := n; if sign == "-" then -v else v
    decreases |blanks|
  {
    var rest := sign + Digits(n);
    if blanks == "" {
      assert "" + rest == rest;
      SignedAt(mem, i, sign, n);
    } else {
      assert blanks == [blanks[0]] + blanks[1..] && blanks[0] in blanks;
      Assoc([blanks[0]], blanks[1..], rest);
      SplitStart(mem, i, [blanks[0]], blanks[1..] + rest);
      FirstChar(mem, i, [blanks[0]]);
      hide StartsAt, Digits, DigitsAt;
      StdAtoiParts(mem, i + 1, blanks[1..], sign, n);
    }
  }

  lemma SignedAt(mem: string, i: nat, sign: string, n: nat)
    requires (sign == "" || sign == "+" || sign == "-") && StartsAt(mem, i, sign + Digits(n))
    requires var e := i + |sign| + |Digits(n)|; e < |mem| && !IsDigit(mem[e])
    ensures StdAtoi(mem, i) == var v: int := n; if sign == "-" then -v else v
  {
    SplitStart(mem, i, sign, Digits(n));
    if sign != "" { FirstChar(mem, i, sign); }
    DigitsStand(mem, i + |sign|, n);
    hide StartsAt, Digits, DigitsAt;
  }

  lemma DigitsStand(mem: string, p: nat, n: nat)
    requires StartsAt(mem, p, Digits(n)) && p + |Digits(n)| < |mem| && !IsDigit(mem[p + |Digits(n)|])
    ensures p < |mem| && IsDigit(mem[p]) && DigitsAt(mem, p, 0) == n
  {
    hide StartsAt, DigitsAt;
    FirstChar(mem, p, Digits(n));
    assert Digits(n)[0] in Digits(n);
    DigitsAtReads(mem, p, Digits(n), 0);
    FoldDigits(n);
  }
}
