/** Exact subtraction of long decimal counters held as text (rrd_diff.c). */
module Diff {
  import S = Scanner

  const LAST_DS_LEN: nat := 30

  /** NaN when the two texts cannot be subtracted, the decimal that `atof` reads, or a write behind the end of the
      result buffer, after which C defines nothing. */
  datatype Outcome = Unknown | Known(value: int) | Overrun

  predicate IsDigit(c: char) {
    '0' <= c <= '9'
  }

  function DigitVal(c: char): (d: nat)
    ensures d <= 9
  {
    if IsDigit(c) then c as int - '0' as int else 0
  }

  /** Number of leading characters that are neither a digit nor the terminator. */
  function Junk(s: string): (n: nat)
    ensures n <= |s|
    ensures n < |s| ==> IsDigit(s[n]) || s[n] == '\0'
    ensures forall k :: 0 <= k < n ==> !IsDigit(s[k]) && s[k] != '\0'
  {
    if s == "" || IsDigit(s[0]) || s[0] == '\0' then 0 else 1 + Junk(s[1..])
  }

  /** Length of the run of digits at the front. */
  function Run(s: string): (n: nat)
    ensures n <= |s|
    ensures n < |s| ==> !IsDigit(s[n])
    ensures forall k :: 0 <= k < n ==> IsDigit(s[k])
  {
    if s == "" || !IsDigit(s[0]) then 0 else 1 + Run(s[1..])
  }

  /** The digits that the scan stops at. */
  function Number(s: string): string {
    s[Junk(s)..][..Run(s[Junk(s)..])]
  }

  predicate Negative(s: string) {
    '-' in s[..Junk(s)]
  }

  lemma NumberIsDigits(s: string, k: nat)
    requires k < |Number(s)|
    ensures IsDigit(Number(s)[k])
  {
  }

  /** The usual value of a digit string, most significant digit first. */
  function Dec(s: string): nat {
    if s == "" then 0 else 10 * Dec(s[..|s| - 1]) + DigitVal(s[|s| - 1])
  }

  /** The two texts pass every check of the function. */
  predicate Subtractable(a: string, b: string) {
    var x, y := Number(a), Number(b);
    x != "" && y != "" && Negative(a) == Negative(b) && |x| <= LAST_DS_LEN && |y| <= LAST_DS_LEN
  }

  function Longer(a: string, b: string): nat {
    if |Number(a)| > |Number(b)| then |Number(a)| else |Number(b)|
  }

  /** Two blanks, the digits of the longer number and the terminator are more than the buffer of LAST_DS_LEN + 1
      characters holds. */
  predicate Overruns(a: string, b: string) {
    Subtractable(a, b) && Longer(a, b) + 2 >= LAST_DS_LEN + 1
  }

  /** What subtracting two counter texts means. */
  function Difference(a: string, b: string): Outcome {
    var x, y := Number(a), Number(b);
    if !Subtractable(a, b) then Unknown
    else if Overruns(a, b) then Overrun
    else if Negative(a) then Known(Dec(y) - Dec(x))
    else Known(Dec(x) - Dec(y))
  }

  /** `atof` on blanks followed by digits: the blanks are skipped, the digits are read. */
  function Blanks(s: string): (n: nat)
    ensures n <= |s|
  {
    if s == "" || s[0] != ' ' then 0 else 1 + Blanks(s[1..])
  }

  function Atof(s: string): nat {
    Dec(s[Blanks(s)..][..Run(s[Blanks(s)..])])
  }

  function Pow10(n: nat): (p: nat)
    ensures p > 0
  {
    if n == 0 then 1 else 10 * Pow10(n - 1)
  }

  /** Digit of weight 10^x, counted from the right; zero beyond the left end. */
  function DigitAt(s: string, x: nat): (d: nat)
    ensures d <= 9
  {
    if x < |s| then DigitVal(s[|s| - 1 - x]) else 0
  }

  /** Value of the x least significant digits. */
  function Low(s: string, x: nat): nat {
    if x == 0 then 0 else Low(s, x - 1) + Pow10(x - 1) * DigitAt(s, x - 1)
  }

  lemma MulDigit(p: nat, d: nat)
    requires d <= 9
    ensures p * d <= 9 * p
    ensures (10 * p) * d == 10 * (p * d)
  {
  }

  lemma {:induction false} LowBound(s: string, x: nat)
    ensures Low(s, x) < Pow10(x)
  {
    if x > 0 {
      LowBound(s, x - 1);
      MulDigit(Pow10(x - 1), DigitAt(s, x - 1));
    }
  }

  lemma {:induction false} LowShift(s: string, x: nat)
    requires s != ""
    ensures Low(s, x + 1) == 10 * Low(s[..|s| - 1], x) + DigitVal(s[|s| - 1])
  {
    if x > 0 {
      LowShift(s, x - 1);
      assert DigitAt(s, x) == DigitAt(s[..|s| - 1], x - 1);
      MulDigit(Pow10(x - 1), DigitAt(s, x));
    } else {
      assert Low(s, 1) == Low(s, 0) + Pow10(0) * DigitAt(s, 0);
    }
  }

  /** Reading all digits from the right gives the usual value. */
  lemma {:induction false} LowIsDec(s: string, x: nat)
    requires |s| <= x
    ensures Low(s, x) == Dec(s)
  {
    if s == "" {
      if x > 0 { LowIsDec(s, x - 1); }
    } else {
      LowShift(s, x - 1);
      LowIsDec(s[..|s| - 1], x - 1);
    }
  }

  /** Low depends on the x rightmost characters only. */
  lemma {:induction false} LowCongruent(s: string, t: string, x: nat)
    requires x <= |s| && x <= |t|
    requires s[|s| - x..] == t[|t| - x..]
    ensures Low(s, x) == Low(t, x)
  {
    if x > 0 {
      assert s[|s| - x..][1..] == t[|t| - x..][1..];
      assert s[|s| - x..][0] == t[|t| - x..][0];
      LowCongruent(s, t, x - 1);
    }
  }

  /** Putting one more digit on the left adds its weight. */
  lemma DecPrepend(c: char, s: string)
    ensures Dec([c] + s) == Pow10(|s|) * DigitVal(c) + Dec(s)
  {
    var t := [c] + s;
    LowIsDec(t, |t|);
    LowCongruent(t, s, |s|);
    LowIsDec(s, |s|);
    assert DigitAt(t, |s|) == DigitVal(c);
  }

  /** Skips to the number in a NUL-terminated buffer; a minus sign on the way makes it negative. */
  method SkipJunk(a: array<char>) returns (lo: nat, neg: bool)
    requires '\0' in a[..]
    ensures lo == Junk(a[..]) <= Terminator(a[..]) && neg == Negative(a[..])
  {
    ghost var s := a[..];
    lo, neg := 0, false;
    while !(IsDigit(a[lo]) || a[lo] == '\0')
      invariant lo <= Terminator(s)
      invariant Junk(s) == lo + Junk(s[lo..])
      invariant neg <==> '-' in s[..lo]
      decreases a.Length - lo
    {
      assert a[lo] == s[lo];
      if a[lo] == '-' {
        neg := true;
      }
      DropDrop(s, lo);
      lo := lo + 1;
    }
    assert a[lo] == s[lo];
  }

  method SpanRun(a: array<char>, lo: nat) returns (hi: nat)
    requires '\0' in a[..] && lo <= Terminator(a[..])
    ensures hi == lo + Run(a[lo..]) <= Terminator(a[..])
  {
    ghost var s := a[..];
    assert a[lo..] == s[lo..];
    hi := lo;
    while IsDigit(a[hi])
      invariant lo <= hi <= Terminator(s)
      invariant Run(s[lo..]) == hi - lo + Run(s[hi..])
      decreases a.Length - hi
    {
      assert a[hi] == s[hi];
      DropDrop(s, hi);
      hi := hi + 1;
    }
    assert a[hi] == s[hi];
  }

  /** Finds the number in a NUL-terminated buffer and cuts the buffer off after it. */
  method Isolate(a: array<char>) returns (lo: nat, hi: nat, neg: bool)
    requires '\0' in a[..]
    modifies a
    ensures lo <= hi < a.Length
    ensures a[lo..hi] == Number(old(a[..])) && neg == Negative(old(a[..]))
    ensures a[..] == old(a[..])[hi := '\0']
  {
    ghost var s := a[..];
    lo, neg := SkipJunk(a);
    hi := SpanRun(a, lo);
    assert a[lo..] == s[lo..];
    a[hi] := '\0';
    assert s[lo..][..hi - lo] == a[lo..hi];
  }

  function Terminator(s: string): (n: nat)
    requires '\0' in s
    ensures n < |s| && s[n] == '\0' && '\0' !in s[..n]
  {
    if s[0] == '\0' then 0 else 1 + Terminator(s[1..])
  }

  lemma DropDrop(s: string, k: nat)
    requires k < |s|
    ensures s[k..] == [s[k]] + s[k + 1..] && s[k..][1..] == s[k + 1..]
    ensures s[..k + 1] == s[..k] + [s[k]]
  {
  }

  /** One column of the subtraction, the shorter number padded with zeros. */
  function Column(a: string, b: string, x: nat, borrow: int): int {
    DigitAt(a, x) - DigitAt(b, x) - borrow
  }

  lemma MulSub(p: int, x: int, y: int)
    ensures p * (x - y) == p * x - p * y
  {
  }

  lemma SubtractStart(a: string, b: string)
    ensures Dec("") == Low(a, 0) - Low(b, 0)
  {
  }

  lemma SubtractStep(a: string, b: string, x: nat, borrow: int, c: char, borrow': int, t: string)
    requires |t| == x && 0 <= borrow <= 1 && 0 <= borrow' <= 1
    requires Dec(t) == Low(a, x) - Low(b, x) + (if borrow == 1 then Pow10(x) else 0)
    requires DigitVal(c) == Column(a, b, x, borrow) + 10 * borrow'
    ensures Dec([c] + t) == Low(a, x + 1) - Low(b, x + 1) + (if borrow' == 1 then Pow10(x + 1) else 0)
  {
    DecPrepend(c, t);
    Weigh(Pow10(x), DigitVal(c), DigitAt(a, x), DigitAt(b, x), borrow, borrow');
  }

  lemma Weigh(p: nat, d: nat, i: nat, j: nat, borrow: int, borrow': int)
    requires 0 <= borrow <= 1 && 0 <= borrow' <= 1
    requires d == i - j - borrow + 10 * borrow'
    ensures p * d == p * i - p * j - (if borrow == 1 then p else 0) + (if borrow' == 1 then 10 * p else 0)
  {
    MulSub(p, i, j);
    MulSub(p, d, i - j);
    assert d - (i - j) == 10 * borrow' - borrow;
  }

  lemma ComplementStart()
    ensures Dec("") == 0 && Pow10(0) == 1
  {
  }

  lemma WeighBack(p: nat, c: nat, d: nat, carry: int, carry': int)
    requires 0 <= carry <= 1 && 0 <= carry' <= 1
    requires c + 10 * carry' == 9 - d + carry
    ensures p * c + (if carry' == 1 then 10 * p else 0) == 9 * p - p * d + (if carry == 1 then p else 0)
  {
    MulSub(p, 9, d);
    MulSub(p, c, 9 - d);
  }

  lemma ComplementStep(d: char, t: string, u: string, carry: int, c: char, carry': int)
    requires |t| == |u| && 0 <= carry <= 1 && 0 <= carry' <= 1
    requires Dec(u) + (if carry == 1 then Pow10(|u|) else 0) == Pow10(|t|) - Dec(t)
    requires DigitVal(c) + 10 * carry' == 9 - DigitVal(d) + carry
    ensures Dec([c] + u) + (if carry' == 1 then Pow10(|u| + 1) else 0) == Pow10(|t| + 1) - Dec([d] + t)
  {
    DecPrepend(c, u);
    DecPrepend(d, t);
    WeighBack(Pow10(|u|), DigitVal(c), DigitVal(d), carry, carry');
  }

  /** The column loop: fills `res` from the right and returns the last borrow. */
  method Subtract(a: array<char>, alo: nat, ahi: nat, b: array<char>, blo: nat, bhi: nat, res: array<char>, m: nat)
    returns (c: int)
    requires alo < ahi <= a.Length && blo < bhi <= b.Length
    requires forall k :: alo <= k < ahi ==> IsDigit(a[k])
    requires forall k :: blo <= k < bhi ==> IsDigit(b[k])
    requires m == if ahi - alo > bhi - blo then ahi - alo else bhi - blo
    requires m + 2 < res.Length && res != a && res != b
    modifies res
    ensures forall k :: 0 <= k < res.Length && !(2 <= k < m + 2) ==> res[k] == old(res[k])
    ensures forall k :: 2 <= k < m + 2 ==> IsDigit(res[k])
    ensures c == 0 || c == 1
    ensures Dec(res[2..m + 2]) == Dec(a[alo..ahi]) - Dec(b[blo..bhi]) + (if c == 1 then Pow10(m) else 0)
  {
    hide Dec, Pow10, Low, Column, DigitAt;
    ghost var sa, sb := a[alo..ahi], b[blo..bhi];
    SubtractStart(sa, sb);
    var a1: int, b1: int, r1 := ahi - 1, bhi - 1, m + 1;
    c := 0;
    var x := 0;
    ghost var t := "";
    while x < m
      invariant 0 <= x <= m && a1 == ahi - 1 - x && b1 == bhi - 1 - x && r1 == m + 1 - x
      invariant a[alo..ahi] == sa && b[blo..bhi] == sb
      invariant c == 0 || c == 1
      invariant forall k :: 0 <= k < res.Length && !(r1 < k < m + 2) ==> res[k] == old(res[k])
      invariant forall k :: r1 < k < m + 2 ==> IsDigit(res[k])
      invariant t == res[r1 + 1..m + 2]
      invariant Dec(t) == Low(sa, x) - Low(sb, x) + (if c == 1 then Pow10(x) else 0)
    {
      var digit, borrow := DigitColumn(a, alo, ahi, a1, b, blo, bhi, b1, c, x);
      res[r1] := digit;
      SubtractStep(sa, sb, x, c, digit, borrow, t);
      t := [digit] + t;
      c := borrow;
      a1, b1, r1, x := a1 - 1, b1 - 1, r1 - 1, x + 1;
    }
    LowIsDec(sa, m);
    LowIsDec(sb, m);
  }

  /** The body of the column loop: the digit stored at `r1` and the borrow it leaves. */
  method DigitColumn(a: array<char>, alo: nat, ahi: nat, a1: int, b: array<char>, blo: nat, bhi: nat, b1: int,
                     c: int, ghost x: nat)
    returns (digit: char, borrow: int)
    requires alo < ahi <= a.Length && blo < bhi <= b.Length && 0 <= c <= 1
    requires a1 == ahi - 1 - x && b1 == bhi - 1 - x && (alo <= a1 || blo <= b1)
    requires forall k :: alo <= k < ahi ==> IsDigit(a[k])
    requires forall k :: blo <= k < bhi ==> IsDigit(b[k])
    ensures IsDigit(digit) && 0 <= borrow <= 1
    ensures DigitVal(digit) == Column(a[alo..ahi], b[blo..bhi], x, c) + 10 * borrow
  {
    assert alo <= a1 ==> a[a1] == a[alo..ahi][ahi - alo - 1 - x];
    assert blo <= b1 ==> b[b1] == b[blo..bhi][bhi - blo - 1 - x];
    var v: int;
    if a1 >= alo && b1 >= blo {
      v := ((a[a1] as int - c) - b[b1] as int) + '0' as int;
    } else if a1 >= alo {
      v := a[a1] as int - c;
    } else {
      v := ('0' as int - b[b1] as int - c) + '0' as int;
    }
    if v < '0' as int {
      v := v + 10;
      borrow := 1;
    } else if v > '9' as int {
      v := v - 10;
      borrow := 1;
    } else {
      borrow := 0;
    }
    digit := v as char;
  }

  /** The ten's complement pass over the digits just written. */
  method Complement(res: array<char>, m: nat)
    requires m + 2 < res.Length && Dec(res[2..m + 2]) > 0
    requires forall k :: 2 <= k < m + 2 ==> IsDigit(res[k])
    modifies res
    ensures forall k :: 0 <= k < res.Length && !(2 <= k < m + 2) ==> res[k] == old(res[k])
    ensures forall k :: 2 <= k < m + 2 ==> IsDigit(res[k])
    ensures Dec(res[2..m + 2]) == Pow10(m) - old(Dec(res[2..m + 2]))
  {
    hide Dec, Pow10;
    ghost var s := res[2..m + 2];
    var r1, x, c := m + 1, 0, 1;
    ghost var t, u := "", "";
    ComplementStart();
    while x < m && IsDigit(res[r1])
      invariant 0 <= x <= m && r1 == m + 1 - x
      invariant c == 0 || c == 1
      invariant forall k :: 0 <= k < res.Length && !(r1 < k < m + 2) ==> res[k] == old(res[k])
      invariant forall k :: r1 < k < m + 2 ==> IsDigit(res[k])
      invariant u == res[r1 + 1..m + 2] && t == s[m - x..]
      invariant Dec(u) + (if c == 1 then Pow10(x) else 0) == Pow10(x) - Dec(t)
    {
      ghost var d, carry := res[r1], c;
      assert d == s[m - x - 1];
      var v := ('9' as int - res[r1] as int + c) + '0' as int;
      if v > '9' as int {
        v := v - 10;
        c := 1;
      } else {
        c := 0;
      }
      res[r1] := v as char;
      ComplementStep(d, t, u, carry, v as char, c);
      u, t := [v as char] + u, [d] + t;
      r1, x := r1 - 1, x + 1;
    }
    assert x == m && t == s;
  }

  lemma {:induction false} BlanksAre(s: string, k: nat)
    requires k < |s| && s[k] != ' '
    requires forall i :: 0 <= i < k ==> s[i] == ' '
    ensures Blanks(s) == k
  {
    if k > 0 { BlanksAre(s[1..], k - 1); }
  }

  lemma {:induction false} RunIs(s: string, n: nat)
    requires n < |s| && !IsDigit(s[n])
    requires forall i :: 0 <= i < n ==> IsDigit(s[i])
    ensures Run(s) == n
  {
    if n > 0 { RunIs(s[1..], n - 1); }
  }

  lemma AtofReads(s: string, k: nat, e: nat)
    requires k < e < |s|
    requires forall i :: 0 <= i < k ==> s[i] == ' '
    requires forall i :: k <= i < e ==> IsDigit(s[i])
    requires s[e] == '\0'
    ensures Atof(s) == Dec(s[k..e])
  {
    BlanksAre(s, k);
    RunIs(s[k..], e - k);
    assert s[k..][..e - k] == s[k..e];
  }

  /** Blanks the result area and terminates it, as the code does before the column loop; false as soon as a write
      would be behind the end of the buffer. */
  method Clear(res: array<char>, m: nat) returns (inside: bool)
    modifies res
    ensures inside <==> m + 2 < res.Length
    ensures inside ==> (forall k :: 0 <= k < m + 2 ==> res[k] == ' ') && res[m + 2] == '\0'
  {
    var k := 0;
    while k <= m + 1
      invariant 0 <= k <= m + 2 && k <= res.Length
      invariant forall i :: 0 <= i < k ==> res[i] == ' '
    {
      if k == res.Length {
        return false;
      }
      res[k] := ' ';
      k := k + 1;
    }
    if m + 2 == res.Length {
      return false;
    }
    res[m + 2] := '\0';
    return true;
  }

  /** Subtracts the two isolated numbers and reads the result back as text. */
  method Magnitude(a: array<char>, alo: nat, ahi: nat, b: array<char>, blo: nat, bhi: nat, ghost ta: string, ghost tb: string)
    returns (inside: bool, v: int)
    requires alo < ahi <= a.Length && blo < bhi <= b.Length
    requires a[alo..ahi] == Number(ta) && b[blo..bhi] == Number(tb)
    ensures inside <==> Longer(ta, tb) + 2 < LAST_DS_LEN + 1
    ensures inside ==> v == Dec(Number(ta)) - Dec(Number(tb))
  {
    ghost var sa, sb := a[alo..ahi], b[blo..bhi];
    IsolatedDigits(a, alo, ahi, ta);
    IsolatedDigits(b, blo, bhi, tb);
    var m := if ahi - alo > bhi - blo then ahi - alo else bhi - blo;
    var res := new char[LAST_DS_LEN + 1];
    inside := Clear(res, m);
    if !inside {
      return false, 0;
    }
    var c := Subtract(a, alo, ahi, b, blo, bhi, res, m);
    DecBound(sa, m);
    DecBound(sb, m);
    if c != 0 {
      Complement(res, m);
      v := Read(res, m);
      v := -v;
    } else {
      v := Read(res, m);
    }
  }

  /** The call of `atof` on the filled buffer. */
  method Read(res: array<char>, m: nat) returns (v: int)
    requires 0 < m && m + 2 < res.Length && res[0] == res[1] == ' ' && res[m + 2] == '\0'
    requires forall k :: 2 <= k < m + 2 ==> IsDigit(res[k])
    ensures v == Dec(res[2..m + 2])
  {
    AtofReads(res[..], 2, m + 2);
    v := Atof(res[..]);
    assert res[..][2..m + 2] == res[2..m + 2];
  }

  lemma IsolatedDigits(a: array<char>, lo: nat, hi: nat, s: string)
    requires lo <= hi <= a.Length && a[lo..hi] == Number(s)
    ensures forall k :: lo <= k < hi ==> IsDigit(a[k])
  {
    forall k | lo <= k < hi ensures IsDigit(a[k]) {
      NumberIsDigits(s, k - lo);
      assert a[k] == a[lo..hi][k - lo];
    }
  }

  lemma DecBound(s: string, m: nat)
    requires |s| <= m
    ensures Dec(s) < Pow10(m)
  {
    LowIsDec(s, m);
    LowBound(s, m);
  }

  /** Both scans, one buffer after the other. */
  method IsolateBoth(a: array<char>, b: array<char>)
    returns (alo: nat, ahi: nat, aNeg: bool, blo: nat, bhi: nat, bNeg: bool)
    requires a != b && '\0' in a[..] && '\0' in b[..]
    modifies a, b
    ensures alo <= ahi < a.Length && blo <= bhi < b.Length
    ensures a[alo..ahi] == Number(old(a[..])) && aNeg == Negative(old(a[..]))
    ensures b[blo..bhi] == Number(old(b[..])) && bNeg == Negative(old(b[..]))
    ensures a[..] == old(a[..])[ahi := '\0'] && b[..] == old(b[..])[bhi := '\0']
  {
    alo, ahi, aNeg := Isolate(a);
    assert b[..] == old(b[..]);
    ghost var sa := a[..];
    blo, bhi, bNeg := Isolate(b);
    assert a[..] == sa;
    assert a[alo..ahi] == sa[alo..ahi];
  }

  /** Subtracting digit strings of the same sign is exact up to 28 digits and writes behind its buffer for 29 and 30;
      every other input gives NaN. */
  method RrdDiff(a: array<char>, b: array<char>) returns (result: Outcome)
    requires a != b && '\0' in a[..] && '\0' in b[..]
    modifies a, b
    ensures result == Difference(old(a[..]), old(b[..]))
    ensures result.Overrun? <==> Overruns(old(a[..]), old(b[..]))
  {
    hide Number, Negative, Dec;
    ghost var sa, sb := a[..], b[..];
    var alo, ahi, aNeg, blo, bhi, bNeg := IsolateBoth(a, b);
    assert |Number(sa)| == ahi - alo && |Number(sb)| == bhi - blo;
    if ahi == alo || bhi == blo {
      return Unknown;
    }
    if aNeg != bNeg {
      return Unknown;
    }
    if ahi - alo > LAST_DS_LEN || bhi - blo > LAST_DS_LEN {
      return Unknown;
    }
    var inside, v := Magnitude(a, alo, ahi, b, blo, bhi, sa, sb);
    if !inside {
      return Overrun;
    }
    result := Known(if aNeg && bNeg then -v else v);
  }

  /** Plain digit texts of every length: the length check lets two lengths pass for which the buffer is too short. */
  lemma DigitTexts(x: string, y: string)
    requires x != "" && y != "" && (forall c <- x :: IsDigit(c)) && forall c <- y :: IsDigit(c)
    ensures var m := if |x| > |y| then |x| else |y|;
            Difference(x + "\0", y + "\0") ==
            if m > LAST_DS_LEN then Unknown
            else if m > LAST_DS_LEN - 2 then Overrun
            else Known(Dec(x) - Dec(y))
  {
    hide Dec;
    PlainNumber(x);
    PlainNumber(y);
  }

  lemma PlainNumber(x: string)
    requires x != "" && forall c <- x :: IsDigit(c)
    ensures Number(x + "\0") == x && !Negative(x + "\0")
  {
    var s := x + "\0";
    assert s[0] == x[0] && x[0] in x;
    assert Junk(s) == 0 && s[0..] == s;
    forall i | 0 <= i < |x| ensures IsDigit(s[i]) {
      assert x[i] in x;
    }
    RunIs(s, |x|);
  }

  /** Two counters of 29 digits, both within the length check. */
  lemma TwentyNineDigits()
    ensures var a, b := seq(29, i => '9') + "\0", seq(29, i => '1') + "\0";
            Overruns(a, b) && Difference(a, b) == Overrun
  {
    var x, y := seq(29, i => '9'), seq(29, i => '1');
    DigitTexts(x, y);
    PlainNumber(x);
    PlainNumber(y);
  }

  // ----- numbers as they are printed

  /** Printing and reading a number are inverse to each other, and its length is that of its power of ten. */
  lemma {:induction false} DecimalIs(n: nat, k: nat)
    ensures (forall c <- S.Decimal(n) :: IsDigit(c)) && Dec(S.Decimal(n)) == n
    ensures k > 0 && n < Pow10(k) ==> |S.Decimal(n)| <= k
  {
    var s := S.Decimal(n);
    if n < 10 {
      assert s[..0] == "" && Dec("") == 0;
    } else {
      if k == 1 { assert Pow10(1) == 10 * Pow10(0); }
      DecimalIs(n / 10, if k > 0 then k - 1 else 0);
      assert s[..|s| - 1] == S.Decimal(n / 10);
    }
  }

  /** Counters as they are printed: for all numbers of up to 28 digits the result is their difference, and with a minus sign in
      front of both it is the difference of the negative numbers. */
  lemma {:induction false} PrintedCounters(n: nat, m: nat, k: nat)
    requires n < Pow10(k) && m < Pow10(k) && 0 < k <= LAST_DS_LEN - 2
    ensures Difference(S.Decimal(n) + "\0", S.Decimal(m) + "\0") == Known(n - m)
    ensures Difference("-" + S.Decimal(n) + "\0", "-" + S.Decimal(m) + "\0") == Known(m - n)
    ensures Difference("-" + S.Decimal(n) + "\0", S.Decimal(m) + "\0") == Unknown
  {
    DecimalIs(n, k);
    DecimalIs(m, k);
    hide Dec, S.Decimal, Pow10, Difference;
    DigitTexts(S.Decimal(n), S.Decimal(m));
    SignedTexts(S.Decimal(n), S.Decimal(m));
  }

  /** The same texts with a minus sign. */
  lemma {:induction false} SignedTexts(x: string, y: string)
    requires 0 < |x| <= LAST_DS_LEN - 2 && 0 < |y| <= LAST_DS_LEN - 2
    requires (forall c <- x :: IsDigit(c)) && forall c <- y :: IsDigit(c)
    ensures Difference("-" + x + "\0", "-" + y + "\0") == Known(Dec(y) - Dec(x))
    ensures Difference("-" + x + "\0", y + "\0") == Unknown
  {
    SignedNumber(x);
    SignedNumber(y);
    PlainNumber(y);
    hide Number, Negative, Dec;
  }

  lemma SignedNumber(x: string)
    requires x != "" && forall c <- x :: IsDigit(c)
    ensures Number("-" + x + "\0") == x && Negative("-" + x + "\0")
  {
    PlainNumber(x);
    var s := "-" + x + "\0";
    assert s[1..] == x + "\0";
    assert Junk(s) == 1 && s[..1] == "-" by {
      assert (x + "\0")[0] == x[0] && x[0] in x;
      assert Junk(x + "\0") == 0;
    }
    assert (x + "\0")[0..] == x + "\0" && Junk(x + "\0") == 0 by {
      assert (x + "\0")[0] == x[0] && x[0] in x;
    }
  }
}
