/** The floating point conversion of sscanf: how far a number reaches, and what a decimal integer means. */
module Scanner {

  /** A C string ends with a zero character. */
  const NUL: char := '\0'

  function Char(s: string, i: nat): char { if i < |s| then s[i] else NUL }

  predicate Blank(c: char) { c == ' ' || c == '\t' || c == '\n' || c == '\U{0b}' || c == '\U{0c}' || c == '\r' }

  predicate Digit(c: char) { '0' <= c <= '9' }

  predicate HexDigit(c: char) { Digit(c) || 'a' <= c <= 'f' || 'A' <= c <= 'F' }

  function Lower(c: char): char { if 'A' <= c <= 'Z' then (c as int + 32) as char else c }

  /** First position from i on that is not of a kind. */
  function Blanks(s: string, i: nat): nat
    decreases |s| - i
  {
    if i < |s| && Blank(s[i]) then Blanks(s, i + 1) else i
  }

  function Digits(s: string, i: nat, hex: bool): nat
    decreases |s| - i
  {
    if i < |s| && (if hex then HexDigit(s[i]) else Digit(s[i])) then Digits(s, i + 1, hex) else i
  }

  function Sign(s: string, i: nat): nat {
    if Char(s, i) == '+' || Char(s, i) == '-' then i + 1 else i
  }

  /** Three letters in either case. */
  predicate Word3(s: string, i: nat, a: char, b: char, c: char) {
    Lower(Char(s, i)) == a && Lower(Char(s, i + 1)) == b && Lower(Char(s, i + 2)) == c
  }

  /** Exponent after the mark at e: it must have a digit. Zero: no number. */
  function ExponentEnd(s: string, e: nat): nat {
    var k := Sign(s, e + 1);
    if Digits(s, k, false) > k then Digits(s, k, false) else 0
  }

  /** Digits with at most one point among them, at least one digit, then perhaps an exponent. Zero: no number. */
  function MantissaEnd(s: string, i: nat, hex: bool): nat {
    var a := Digits(s, i, hex);
    var b := if Char(s, a) == '.' then Digits(s, a + 1, hex) else a;
    if a == i && b <= a + 1 then 0
    else if Lower(Char(s, b)) == (if hex then 'p' else 'e') then ExponentEnd(s, b)
    else b
  }

  /** The end of the number that s begins with, or zero. */
  function NumberEnd(s: string): nat {
    var j := Sign(s, Blanks(s, 0));
    if Word3(s, j, 'i', 'n', 'f') then
      if Lower(Char(s, j + 3)) != 'i' then j + 3
      else if Lower(Char(s, j + 4)) == 'n' && Word3(s, j + 5, 'i', 't', 'y') then j + 8
      else 0
    else if Word3(s, j, 'n', 'a', 'n') then j + 3
    else if Char(s, j) == '0' && Lower(Char(s, j + 1)) == 'x' then MantissaEnd(s, j + 2, true)
    else MantissaEnd(s, j, false)
  }

  // ----- what a comma ends

  /** s and t are the same up to a comma at k. */
  ghost predicate Agree(s: string, t: string, k: nat) {
    k < |s| && k < |t| && s[k] == ',' == t[k] && forall i :: 0 <= i < k ==> s[i] == t[i]
  }

  lemma {:induction false} BlanksAgree(s: string, t: string, k: nat, i: nat)
    requires Agree(s, t, k) && i <= k
    ensures Blanks(s, i) == Blanks(t, i) <= k
    decreases k - i
  {
    if i < k && Blank(s[i]) { BlanksAgree(s, t, k, i + 1); }
  }

  lemma {:induction false} DigitsAgree(s: string, t: string, k: nat, i: nat, hex: bool)
    requires Agree(s, t, k) && i <= k
    ensures i <= Digits(s, i, hex) == Digits(t, i, hex) <= k
    decreases k - i
  {
    if i < k && (if hex then HexDigit(s[i]) else Digit(s[i])) { DigitsAgree(s, t, k, i + 1, hex); }
  }

  lemma ExponentAgree(s: string, t: string, k: nat, e: nat)
    requires Agree(s, t, k) && e < k
    ensures ExponentEnd(s, e) == ExponentEnd(t, e) <= k
  {
    hide Digits;
    DigitsAgree(s, t, k, e + 1, false);
    if e + 1 < k { DigitsAgree(s, t, k, e + 2, false); }
  }

  lemma MantissaAgree(s: string, t: string, k: nat, i: nat, hex: bool)
    requires Agree(s, t, k) && i <= k
    ensures MantissaEnd(s, i, hex) == MantissaEnd(t, i, hex) <= k
  {
    hide Digits, ExponentEnd;
    var a := Digits(s, i, hex);
    DigitsAgree(s, t, k, i, hex);
    if a < k { DigitsAgree(s, t, k, a + 1, hex); }
    var b := if Char(s, a) == '.' then Digits(s, a + 1, hex) else a;
    if b < k { ExponentAgree(s, t, k, b); }
  }

  /** Whether and where a number ends does not depend on what follows a comma. */
  lemma NumberAgree(s: string, t: string, k: nat)
    requires Agree(s, t, k)
    ensures NumberEnd(s) == NumberEnd(t) <= k
  {
    hide Blanks, MantissaEnd;
    BlanksAgree(s, t, k, 0);
    var j := Sign(s, Blanks(s, 0));
    assert j <= k;
    MantissaAgree(s, t, k, j, false);
    if j + 2 <= k { MantissaAgree(s, t, k, j + 2, true); }
  }

  // ----- decimal integers

  function DigitChar(d: nat): (c: char)
    requires d < 10
    ensures Digit(c)
  {
    '0' + d as char
  }

  /** Digits of a number as "%d" prints them. */
  function Decimal(n: nat): (s: string)
    ensures s != [] && forall i :: 0 <= i < |s| ==> Digit(s[i])
  {
    if n < 10 then [DigitChar(n)] else Decimal(n / 10) + [DigitChar(n % 10)]
  }

  function Dec(v: int): (s: string)
    ensures s != [] && (Digit(s[0]) || s[0] == '-') && forall i :: 1 <= i < |s| ==> Digit(s[i])
  {
    if v < 0 then ['-'] + Decimal(-v) else Decimal(v)
  }

  function DigitsValue(s: string): nat
    requires forall i :: 0 <= i < |s| ==> Digit(s[i])
  {
    if s == [] then 0 else
    assert Digit(s[|s| - 1]);
    10 * DigitsValue(s[..|s| - 1]) + (s[|s| - 1] as int - '0' as int)
  }

  /** A sign, if any, and digits. */
  predicate IsInteger(s: string) {
    s != [] && (Digit(s[0]) || ((s[0] == '-' || s[0] == '+') && |s| > 1)) && forall i :: 1 <= i < |s| ==> Digit(s[i])
  }

  function IntegerValue(s: string): int
    requires IsInteger(s)
  {
    if s[0] == '-' then -(DigitsValue(s[1..]) as int) else if s[0] == '+' then DigitsValue(s[1..]) else DigitsValue(s)
  }

  lemma {:induction false} DecimalValue(n: nat)
    ensures DigitsValue(Decimal(n)) == n
  {
    if n >= 10 {
      DecimalValue(n / 10);
      assert Decimal(n)[..|Decimal(n)| - 1] == Decimal(n / 10);
    } else {
      assert Decimal(n)[..0] == [];
    }
  }

  lemma DecValue(v: int)
    ensures IsInteger(Dec(v)) && IntegerValue(Dec(v)) == v
  {
    hide Decimal;
    DecimalValue(if v < 0 then -v else v);
    if v < 0 { assert Dec(v)[1..] == Decimal(-v); }
  }

  lemma {:induction false} AllDigits(s: string, i: nat, k: nat)
    requires i <= k <= |s| && (forall j :: i <= j < k ==> Digit(s[j])) && !Digit(Char(s, k))
    ensures Digits(s, i, false) == k
    decreases k - i
  {
    if i < k { AllDigits(s, i + 1, k); }
  }

  /** A printed integer followed by a comma is scanned to the comma. */
  lemma ScanDec(v: int, rest: string)
    ensures NumberEnd(Dec(v) + "," + rest) == |Dec(v)|
  {
    hide Dec, Digits, Blanks;
    var d := Dec(v);
    var s := d + "," + rest;
    assert s[0] == d[0] && s[|d|] == ',';
    var j := if d[0] == '-' then 1 else 0;
    NoBlanks(s);
    assert |d| > j by { DecValue(v); }
    assert forall i :: j <= i < |d| ==> s[i] == d[i];
    assert Digit(s[j]);
    AllDigits(s, j, |d|);
    assert s[j + 1] == ',' || Digit(s[j + 1]);
  }

  lemma NoBlanks(s: string)
    ensures !Blank(Char(s, 0)) ==> Blanks(s, 0) == 0
  {
  }

  // ----- the numbers that %lf reads

  /** A string of digits. */
  predicate AllOf(d: string, hex: bool) { forall i :: 0 <= i < |d| ==> if hex then HexDigit(d[i]) else Digit(d[i]) }

  /** The digits d at position i, with something else behind them. */
  lemma {:induction false} DigitsTo(s: string, i: nat, j: nat, hex: bool)
    requires i <= j <= |s| && AllOf(s[i..j], hex) && (j < |s| ==> if hex then !HexDigit(s[j]) else !Digit(s[j]))
    ensures Digits(s, i, hex) == j
    decreases j - i
  {
    if i < j {
      assert s[i] == s[i..j][0];
      assert s[i + 1..j] == s[i..j][1..];
      DigitsTo(s, i + 1, j, hex);
    }
  }

  predicate IsSign(sign: string) { sign == "" || sign == "+" || sign == "-" }

  /** Digits from j on, a point at d, if there is one, and more digits up to p; at least one digit in all. */
  predicate IsMantissa(s: string, j: nat, d: nat, p: nat) {
    j <= d <= p < |s| && AllOf(s[j..d], false) && !Digit(s[p]) && (j < d || d + 1 < p) &&
    if s[d] == '.' then d < p && AllOf(s[d + 1..p], false) else d == p
  }

  lemma MantissaStarts(s: string, j: nat, d: nat, p: nat)
    requires IsMantissa(s, j, d, p) && IsSign(s[..j]) && Lower(s[p]) != 'x'
    ensures NumberEnd(s) == MantissaEnd(s, j, false)
  {
    hide Blanks, Sign, MantissaEnd;
    if j < d {
      assert s[j] == s[j..d][0];
      if j + 1 < d { assert s[j + 1] == s[j..d][1]; }
    }
    Front(s, s[..j]);
  }

  lemma MantissaIs(s: string, j: nat, d: nat, p: nat)
    requires IsMantissa(s, j, d, p)
    ensures Digits(s, j, false) == d && (if s[d] == '.' then Digits(s, d + 1, false) == p else d == p)
    ensures Lower(s[p]) != 'e' ==> MantissaEnd(s, j, false) == p
    ensures Lower(s[p]) == 'e' ==> MantissaEnd(s, j, false) == ExponentEnd(s, p)
  {
    hide Digits, ExponentEnd;
    DigitsTo(s, j, d, false);
    if s[d] == '.' { DigitsTo(s, d + 1, p, false); }
  }

  /** Every decimal number, with or without sign and point, is scanned to the comma. */
  lemma ScanDecimal(s: string, j: nat, d: nat, p: nat)
    requires IsMantissa(s, j, d, p) && IsSign(s[..j]) && s[p] == ','
    ensures NumberEnd(s) == p
  {
    hide NumberEnd, MantissaEnd, Digits;
    MantissaStarts(s, j, d, p);
    MantissaIs(s, j, d, p);
  }

  /** With an exponent at p, its sign up to k and its digits up to the comma it is so, too, if there is such a digit; otherwise
      nothing is scanned. */
  lemma ScanExponent(s: string, j: nat, d: nat, p: nat, k: nat, end: nat)
    requires IsMantissa(s, j, d, p) && IsSign(s[..j]) && (s[p] == 'e' || s[p] == 'E')
    requires p + 1 <= k <= end < |s| && IsSign(s[p + 1..k]) && AllOf(s[k..end], false) && s[end] == ','
    ensures NumberEnd(s) == if k < end then end else 0
  {
    hide NumberEnd, MantissaEnd, Digits;
    MantissaStarts(s, j, d, p);
    MantissaIs(s, j, d, p);
    DigitsTo(s, k, end, false);
    if p + 1 < k { assert s[p + 1] == s[p + 1..k][0]; }
    if k < end { assert s[k] == s[k..end][0]; }
  }

  lemma Front(s: string, sign: string)
    requires IsSign(sign) && |sign| < |s| && s[..|sign|] == sign && s[|sign|] != '+' && s[|sign|] != '-' && !Blank(s[|sign|])
    ensures Sign(s, Blanks(s, 0)) == |sign|
  {
    if sign != "" { assert s[0] == s[..1][0]; }
  }

  /** Where the classes of characters begin and end. */
  lemma Classes()
    ensures Digit('0') && Digit('9') && !Digit('/') && !Digit(':')
    ensures HexDigit('0') && HexDigit('9') && HexDigit('a') && HexDigit('f') && HexDigit('A') && HexDigit('F')
    ensures !HexDigit('/') && !HexDigit(':') && !HexDigit('`') && !HexDigit('g') && !HexDigit('@') && !HexDigit('G')
    ensures Lower('A') == 'a' && Lower('Z') == 'z' && Lower('@') == '@' && Lower('[') == '[' && Lower('a') == 'a'
  {
  }

  /** A number is printed with a minus sign exactly if it is negative, and without leading zeros. */
  lemma {:induction false} PrintedForm(v: int)
    ensures Dec(v)[0] == '-' <==> v < 0
    ensures v >= 0 && |Dec(v)| > 1 ==> Dec(v)[0] != '0'
  {
    if v >= 10 {
      PrintedForm(v / 10);
      assert Decimal(v)[0] == Decimal(v / 10)[0];
    }
  }

  /** The other forms: infinity and not-a-number in any case, and hexadecimal numbers. */
  lemma ScanWords()
    ensures NumberEnd("INF,") == 3 && NumberEnd("-inf,") == 4 && NumberEnd("Infinity,") == 8 && NumberEnd("infini,") == 0
    ensures NumberEnd("nan,") == 3 && NumberEnd("NANNY,") == 3
  {
    hide MantissaEnd;
    assert Blanks("-inf,", 0) == 0;
  }

  lemma ScanHex(sign: string, x: char, a: string)
    requires IsSign(sign) && (x == 'x' || x == 'X') && AllOf(a, true)
    ensures var s := sign + "0" + [x] + a + ","; NumberEnd(s) == if a == "" then 0 else |s| - 1
  {
    hide Digits, Blanks;
    var s := sign + "0" + [x] + a + ",";
    var j := |sign|;
    assert s[j] == '0' && s[j + 1] == x && s[j + 2..|s| - 1] == a && s[|s| - 1] == ',';
    DigitsTo(s, j + 2, |s| - 1, true);
    Front(s, sign);
  }
}

/** Operators as words. */
module RpnWords {
  import opened Rpn

  predicate HasWord(op: Op) { !op.OpNumber? && !op.OpVariable? && !op.OpPrevOther? }

  function Word(op: Op): string
    requires HasWord(op)
  {
    match op
    case OpAdd => "+" case OpSub => "-" case OpMul => "*" case OpDiv => "/" case OpMod => "%"
    case OpSin => "SIN" case OpCos => "COS" case OpLog => "LOG" case OpFloor => "FLOOR" case OpCeil => "CEIL"
    case OpExp => "EXP" case OpDup => "DUP" case OpExc => "EXC" case OpPop => "POP" case OpLtime => "LTIME"
    case OpLt => "LT" case OpLe => "LE" case OpGt => "GT" case OpGe => "GE" case OpEq => "EQ" case OpIf => "IF"
    case OpMin => "MIN" case OpMax => "MAX" case OpLimit => "LIMIT" case OpUnkn => "UNKN" case OpUn => "UN"
    case OpNegInf => "NEGINF" case OpNe => "NE" case OpCount => "COUNT" case OpPrev => "PREV" case OpInf => "INF"
    case OpIsInf => "ISINF" case OpNow => "NOW" case OpTime => "TIME" case OpAtan2 => "ATAN2" case OpAtan => "ATAN"
    case OpSqrt => "SQRT" case OpSort => "SORT" case OpRev => "REV" case OpTrend => "TREND" case OpTrendNan => "TRENDNAN"
    case OpPredict => "PREDICT" case OpPredictSigma => "PREDICTSIGMA" case OpRad2Deg => "RAD2DEG" case OpDeg2Rad => "DEG2RAD"
    case OpAvg => "AVG" case OpAbs => "ABS" case OpAddNan => "ADDNAN" case OpMinNan => "MINNAN" case OpMaxNan => "MAXNAN"
  }

  /** The order in which the parser tries the words: those before and those behind PREV with a name. */
  function BeforePrev(): (ops: seq<Op>)
    ensures forall i :: 0 <= i < |ops| ==> HasWord(ops[i])
  {
    [OpAdd, OpSub, OpMul, OpDiv, OpMod, OpSin, OpCos, OpLog, OpFloor, OpCeil, OpExp, OpDup, OpExc, OpPop, OpLtime, OpLt, OpLe,
     OpGt, OpGe, OpEq, OpIf, OpMin, OpMax, OpLimit, OpUnkn, OpUn, OpNegInf, OpNe, OpCount]
  }

  function FromPrev(): (ops: seq<Op>)
    ensures forall i :: 0 <= i < |ops| ==> HasWord(ops[i])
  {
    [OpPrev, OpInf, OpIsInf, OpNow, OpTime, OpAtan2, OpAtan, OpSqrt, OpSort, OpRev, OpTrend, OpTrendNan, OpPredict,
     OpPredictSigma, OpRad2Deg, OpDeg2Rad, OpAvg, OpAbs, OpAddNan, OpMinNan, OpMaxNan]
  }

  /** Reads a word by its length and a few letters. */
  function Decode(w: string): Op {
    var n := |w|;
    if n == 1 then
      if w[0] == '+' then OpAdd else if w[0] == '-' then OpSub else if w[0] == '*' then OpMul else if w[0] == '/' then OpDiv
      else OpMod
    else if n == 2 then
      if w[0] == 'L' then (if w[1] == 'T' then OpLt else OpLe) else if w[0] == 'G' then (if w[1] == 'T' then OpGt else OpGe)
      else if w[0] == 'E' then OpEq else if w[0] == 'I' then OpIf else if w[0] == 'U' then OpUn else OpNe
    else if n == 3 then
      if w[0] == 'S' then OpSin else if w[0] == 'C' then OpCos else if w[0] == 'L' then OpLog
      else if w[0] == 'E' then (if w[2] == 'P' then OpExp else OpExc) else if w[0] == 'D' then OpDup else if w[0] == 'P' then OpPop
      else if w[0] == 'M' then (if w[1] == 'I' then OpMin else OpMax) else if w[0] == 'I' then OpInf
      else if w[0] == 'N' then OpNow else if w[0] == 'R' then OpRev else if w[1] == 'V' then OpAvg else OpAbs
    else if n == 4 then
      if w[0] == 'C' then OpCeil else if w[0] == 'U' then OpUnkn else if w[0] == 'P' then OpPrev else if w[0] == 'T' then OpTime
      else if w[0] == 'A' then OpAtan else if w[1] == 'Q' then OpSqrt else OpSort
    else if n == 5 then
      if w[0] == 'F' then OpFloor else if w[0] == 'L' then (if w[1] == 'T' then OpLtime else OpLimit)
      else if w[0] == 'C' then OpCount else if w[0] == 'I' then OpIsInf else if w[0] == 'A' then OpAtan2 else OpTrend
    else if n == 6 then
      if w[0] == 'N' then OpNegInf else if w[0] == 'A' then OpAddNan else if w[1] == 'I' then OpMinNan else OpMaxNan
    else if n == 7 then
      if w[0] == 'R' then OpRad2Deg else if w[0] == 'D' then OpDeg2Rad else OpPredict
    else if n == 8 then OpTrendNan
    else OpPredictSigma
  }

  predicate WordChar(c: char) {
    'A' <= c <= 'Z' || '0' <= c <= '9' || c == '+' || c == '-' || c == '*' || c == '/' || c == '%'
  }

  ghost predicate IsWord(w: string) { w != [] && forall i :: 0 <= i < |w| ==> WordChar(w[i]) }

  predicate Symbol(op: Op) {
    op.OpAdd? || op.OpSub? || op.OpMul? || op.OpDiv? || op.OpMod? || op.OpLt? || op.OpLe? ||
    op.OpGt? || op.OpGe? || op.OpEq? || op.OpIf? || op.OpUn? || op.OpNe?
  }

  predicate ThreeA(op: Op) {
    op.OpSin? || op.OpCos? || op.OpLog? || op.OpExp? || op.OpDup? || op.OpExc? || op.OpPop?
  }

  predicate ThreeB(op: Op) {
    op.OpMin? || op.OpMax? || op.OpInf? || op.OpNow? || op.OpRev? || op.OpAvg? || op.OpAbs?
  }

  predicate Four(op: Op) {
    op.OpCeil? || op.OpUnkn? || op.OpPrev? || op.OpTime? || op.OpAtan? || op.OpSqrt? || op.OpSort?
  }

  predicate Five(op: Op) {
    op.OpFloor? || op.OpLtime? || op.OpLimit? || op.OpCount? || op.OpIsInf? || op.OpAtan2? || op.OpTrend?
  }

  lemma DecodeSymbol(op: Op)
    requires Symbol(op)
    ensures Decode(Word(op)) == op && IsWord(Word(op))
  {
  }

  lemma DecodeThreeA(op: Op)
    requires ThreeA(op)
    ensures Decode(Word(op)) == op && IsWord(Word(op))
  {
  }

  lemma DecodeThreeB(op: Op)
    requires ThreeB(op)
    ensures Decode(Word(op)) == op && IsWord(Word(op))
  {
  }

  lemma DecodeFour(op: Op)
    requires Four(op)
    ensures Decode(Word(op)) == op && IsWord(Word(op))
  {
  }

  lemma DecodeFive(op: Op)
    requires Five(op)
    ensures Decode(Word(op)) == op && IsWord(Word(op))
  {
  }

  lemma DecodeLong(op: Op)
    requires HasWord(op) && !Symbol(op) && !ThreeA(op) && !ThreeB(op) && !Four(op) && !Five(op)
    ensures Decode(Word(op)) == op && IsWord(Word(op))
  {
  }

  /** No two operators have the same word. */
  lemma DecodeWord(op: Op)
    requires HasWord(op)
    ensures Decode(Word(op)) == op && IsWord(Word(op))
  {
    hide Decode, Word;
    if Symbol(op) { DecodeSymbol(op); } else if ThreeA(op) { DecodeThreeA(op); } else if ThreeB(op) { DecodeThreeB(op); }
    else if Four(op) { DecodeFour(op); } else if Five(op) { DecodeFive(op); } else { DecodeLong(op); }
  }

  /** The beginning of a word that is not INF: it does not begin like a number. */
  predicate GoodHead(w: string, inf: bool) {
    w != [] && !('0' <= w[0] <= '9') && w[0] != '.' && w[0] != 'i' && w[0] != 'n' &&
    (w[0] == '+' || w[0] == '-' ==> |w| == 1) &&
    (w[0] == 'I' && !inf ==> |w| > 1 && w[1] != 'N' && w[1] != 'n') &&
    (w[0] == 'N' ==> |w| > 1 && w[1] != 'A' && w[1] != 'a')
  }

  lemma HeadSymbol(op: Op)
    requires Symbol(op)
    ensures GoodHead(Word(op), op.OpInf?)
  {
  }

  lemma HeadThreeA(op: Op)
    requires ThreeA(op)
    ensures GoodHead(Word(op), op.OpInf?)
  {
  }

  lemma HeadThreeB(op: Op)
    requires ThreeB(op)
    ensures GoodHead(Word(op), op.OpInf?)
  {
  }

  lemma HeadFour(op: Op)
    requires Four(op)
    ensures GoodHead(Word(op), op.OpInf?)
  {
  }

  lemma HeadFive(op: Op)
    requires Five(op)
    ensures GoodHead(Word(op), op.OpInf?)
  {
  }

  lemma HeadLong(op: Op)
    requires HasWord(op) && !Symbol(op) && !ThreeA(op) && !ThreeB(op) && !Four(op) && !Five(op)
    ensures GoodHead(Word(op), op.OpInf?)
  {
  }

  lemma WordHead(op: Op)
    requires HasWord(op)
    ensures GoodHead(Word(op), op.OpInf?)
  {
    hide Word, GoodHead;
    if Symbol(op) { HeadSymbol(op); } else if ThreeA(op) { HeadThreeA(op); } else if ThreeB(op) { HeadThreeB(op); }
    else if Four(op) { HeadFour(op); } else if Five(op) { HeadFive(op); } else { HeadLong(op); }
  }

  lemma InTable(op: Op)
    requires HasWord(op)
    ensures op in BeforePrev() || op in FromPrev()
  {
  }
}

/** Printing and parsing programs (rpn_compact2str and rpn_parse in rrd_rpncalc.c). */
module RpnText {
  import opened Numbers
  import opened Rpn
  import opened RpnCompact
  import opened RpnWords
  import S = Scanner
  import V = Values

  // ----- printing

  /** One printed node. PREV of a source and COUNT print as nothing. */
  function Element(c: Compact, names: seq<string>): string
    requires IsRef(c.op) ==> 0 <= c.val < |names|
  {
    if c.op.OpNumber? then S.Dec(c.val)
    else if c.op.OpVariable? then names[c.val]
    else if c.op.OpPrevOther? || c.op.OpCount? then ""
    else Word(c.op)
  }

  ghost predicate Named(rpnc: seq<Compact>, names: seq<string>) {
    forall i :: 0 <= i < |rpnc| && IsRef(rpnc[i].op) ==> 0 <= rpnc[i].val < |names|
  }

  function Printed(rpnc: seq<Compact>, names: seq<string>): string
    requires Named(rpnc, names)
  {
    if rpnc == [] then ""
    else Printed(rpnc[..|rpnc| - 1], names) + (if |rpnc| > 1 then "," else "") + Element(rpnc[|rpnc| - 1], names)
  }

  /** `rpn_compact2str`. */
  method Compact2Str(rpnc: seq<Compact>, names: seq<string>) returns (str: string)
    requires Named(rpnc, names)
    ensures str == Printed(rpnc, names)
  {
    str := "";
    var i := 0;
    while i < |rpnc|
      invariant 0 <= i <= |rpnc| && str == Printed(rpnc[..i], names)
    {
      assert rpnc[..i + 1][..i] == rpnc[..i];
      if i > 0 {
        str := str + ",";
      }
      str := str + Element(rpnc[i], names);
      i := i + 1;
    }
    assert rpnc[..i] == rpnc;
  }

  /** The first element, and what follows it. */
  function Tail(rpnc: seq<Compact>, names: seq<string>): string
    requires Named(rpnc, names) && rpnc != []
  {
    if |rpnc| == 1 then "" else "," + Printed(rpnc[1..], names)
  }

  lemma PrintedLast(rpnc: seq<Compact>, names: seq<string>)
    requires Named(rpnc, names) && rpnc != []
    ensures var n := |rpnc|;
            Printed(rpnc, names) ==
              if n == 1 then Element(rpnc[0], names) else Printed(rpnc[..n - 1], names) + "," + Element(rpnc[n - 1], names)
  {
    hide Element;
    if |rpnc| == 1 { assert Printed(rpnc[..0], names) == ""; }
  }

  lemma Regroup(a: string, b: string, c: string)
    ensures a + ("," + b) + "," + c == a + ("," + (b + "," + c))
  {
  }

  lemma {:induction false} PrintedFirst(rpnc: seq<Compact>, names: seq<string>)
    requires Named(rpnc, names) && rpnc != []
    ensures Printed(rpnc, names) == Element(rpnc[0], names) + Tail(rpnc, names)
  {
    hide Element, Printed;
    var n := |rpnc|;
    PrintedLast(rpnc, names);
    if n > 1 {
      PrintedFirst(rpnc[..n - 1], names);
      TailLast(rpnc, names);
    }
  }

  lemma TailLast(rpnc: seq<Compact>, names: seq<string>)
    requires Named(rpnc, names) && |rpnc| > 1
    ensures var n := |rpnc|;
            Element(rpnc[0], names) + Tail(rpnc, names) ==
            Element(rpnc[0], names) + Tail(rpnc[..n - 1], names) + "," + Element(rpnc[n - 1], names)
  {
    hide Element, Printed;
    var n := |rpnc|;
    PrintedLast(rpnc[1..], names);
    if n > 2 {
      assert rpnc[1..][..n - 2] == rpnc[..n - 1][1..];
      Regroup(Element(rpnc[0], names), Printed(rpnc[1..][..n - 2], names), Element(rpnc[n - 1], names));
    }
  }

  // ----- parsing

  /** `strncmp` with the word, and an end or a comma behind it. */
  predicate Matches(r: string, w: string) {
    |w| <= |r| && r[..|w|] == w && (S.Char(r, |w|) == ',' || S.Char(r, |w|) == S.NUL)
  }

  function FindOp(r: string, ops: seq<Op>): V.Option<Op>
    requires forall i :: 0 <= i < |ops| ==> HasWord(ops[i])
  {
    if ops == [] then V.None else if Matches(r, Word(ops[0])) then V.Some(ops[0]) else FindOp(r, ops[1..])
  }

  predicate NameChar(c: char) { '0' <= c <= '9' || 'a' <= c <= 'z' || 'A' <= c <= 'Z' || c == '-' || c == '_' }

  const MAX_NAME := 255

  /** End of the name from i on, of at most `room` characters. */
  function NameEnd(r: string, i: nat, room: nat): (e: nat)
    requires i <= |r|
    ensures i <= e <= |r|
    decreases room
  {
    if i < |r| && room > 0 && NameChar(r[i]) then NameEnd(r, i + 1, room - 1) else i
  }

  /** `lookup_DS`: the first data source of the name, or -1. */
  function Lookup(names: seq<string>, w: string): (k: int)
    ensures -1 <= k < |names| && (k >= 0 ==> names[k] == w) && forall j :: 0 <= j < (if k < 0 then |names| else k) ==> names[j] != w
  {
    LookupFrom(names, w, 0)
  }

  function LookupFrom(names: seq<string>, w: string, i: nat): (k: int)
    requires i <= |names| && forall j :: 0 <= j < i ==> names[j] != w
    ensures -1 <= k < |names| && (k >= 0 ==> names[k] == w) && forall j :: 0 <= j < (if k < 0 then |names| else k) ==> names[j] != w
    decreases |names| - i
  {
    if i == |names| then -1 else if names[i] == w then i else LookupFrom(names, w, i + 1)
  }

  datatype Step = Read(term: Term, next: nat) | Fail

  /** The value of a scanned number. `strtod` stands for the library where the text is not a plain integer. */
  function NumberValue(text: string, strtod: string -> Num): Num {
    if S.IsInteger(text) then Fin(S.IntegerValue(text) as real) else strtod(text)
  }

  /** PREV and a name in parentheses at the start. */
  predicate PrevName(r: string) { |r| >= 5 && r[..5] == "PREV(" && NameEnd(r, 5, MAX_NAME) > 5 }

  function ParsePrev(r: string, names: seq<string>): Step
    requires PrevName(r)
  {
    var e := NameEnd(r, 5, MAX_NAME);
    var length := e + 1;
    if length <= |r| && (S.Char(r, length) == ',' || S.Char(r, length) == S.NUL) && Lookup(names, r[5..e]) >= 0 then
      Read(Term(OpPrevOther, Fin(0.0), Lookup(names, r[5..e])), length)
    else Fail
  }

  /** One turn of the parser's loop on what is left of the text. */
  function ParseStep(r: string, names: seq<string>, strtod: string -> Num): (step: Step)
    ensures step.Read? ==> 0 < step.next <= |r|
  {
    hide BeforePrev, FromPrev, Word;
    var k := S.NumberEnd(r);
    if 0 < k < |r| && r[k] == ',' then Read(Term(OpNumber, NumberValue(r[..k], strtod), 0), k) else
    var a, b := FindOp(r, BeforePrev()), FindOp(r, FromPrev());
    var e := NameEnd(r, 0, MAX_NAME);
    if a.Some? then
      FoundLength(r, BeforePrev());
      Read(Term(a.value, Fin(0.0), 0), |Word(a.value)|)
    else if PrevName(r) then ParsePrev(r, names)
    else if b.Some? then
      FoundLength(r, FromPrev());
      Read(Term(b.value, Fin(0.0), 0), |Word(b.value)|)
    else if e > 0 && Lookup(names, r[..e]) >= 0 then Read(Term(OpVariable, Fin(0.0), Lookup(names, r[..e])), e)
    else Fail
  }

  lemma {:induction false} FoundLength(r: string, ops: seq<Op>)
    requires forall i :: 0 <= i < |ops| ==> HasWord(ops[i])
    ensures var f := FindOp(r, ops);
            f.Some? ==> HasWord(f.value) && f.value in ops && Matches(r, Word(f.value)) && 0 < |Word(f.value)| <= |r|
  {
    hide Word;
    if ops != [] {
      FoundLength(r, ops[1..]);
      DecodeWord(ops[0]);
    }
  }

  /** The whole parse. The empty text is not meant: the original has no program to return for it. */
  function Parsed(r: string, names: seq<string>, strtod: string -> Num): V.Option<seq<Term>>
    decreases |r|
  {
    if r == "" then V.Some([]) else
    var step := ParseStep(r, names, strtod);
    if step.Fail? then V.None
    else if step.next == |r| then V.Some([step.term])
    else if r[step.next] != ',' then V.None
    else
      var rest := Parsed(r[step.next + 1..], names, strtod);
      if rest.None? then V.None else V.Some([step.term] + rest.value)
  }

  /** A program, an error, or, for the empty text, a write through the null pointer. */
  datatype ParseResult = Program(terms: seq<Term>) | Rejected | NullAccess

  function ResultOf(expr: string, p: V.Option<seq<Term>>): ParseResult {
    if expr == "" then NullAccess else if p.None? then Rejected else Program(p.value)
  }

  /** `rpn_parse`: nothing is allocated before the first element, but the end marker is always written. */
  method Parse(expr: string, names: seq<string>, strtod: string -> Num) returns (result: ParseResult)
    ensures result == ResultOf(expr, Parsed(expr, names, strtod))
    ensures result.NullAccess? <==> expr == ""
  {
    hide ParseStep, Behind;
    var terms: seq<Term> := [];
    var rest := expr;
    BehindNothing(Parsed(expr, names, strtod));
    while rest != ""
      invariant Parsed(expr, names, strtod) == Behind(terms, Parsed(rest, names, strtod))
      invariant terms == [] <==> rest == expr
      invariant |rest| <= |expr|
      decreases |rest|
    {
      var step := ParseStep(rest, names, strtod);
      BehindStep(terms, rest, names, strtod);
      if step.Fail? {
        return Rejected;
      }
      terms := terms + [step.term];
      if step.next == |rest| {
        return Program(terms);
      }
      if rest[step.next] != ',' {
        return Rejected;
      }
      rest := rest[step.next + 1..];
    }
    if terms == [] {
      return NullAccess;
    }
    BehindEnd(terms);
    return Program(terms);
  }

  lemma BehindNothing(p: V.Option<seq<Term>>)
    ensures Behind([], p) == p
  {
    if p.Some? { assert [] + p.value == p.value; }
  }

  lemma BehindEnd(terms: seq<Term>)
    ensures Behind(terms, V.Some([])) == V.Some(terms)
  {
    assert terms + [] == terms;
  }

  lemma BehindStep(terms: seq<Term>, rest: string, names: seq<string>, strtod: string -> Num)
    requires rest != ""
    ensures var step, p := ParseStep(rest, names, strtod), Behind(terms, Parsed(rest, names, strtod));
            if step.Fail? then p == V.None
            else if step.next == |rest| then p == V.Some(terms + [step.term])
            else if rest[step.next] != ',' then p == V.None
            else p == Behind(terms + [step.term], Parsed(rest[step.next + 1..], names, strtod))
  {
    hide ParseStep;
    var step := ParseStep(rest, names, strtod);
    if step.Read? && step.next < |rest| && rest[step.next] == ',' {
      var q := Parsed(rest[step.next + 1..], names, strtod);
      if q.Some? { assert terms + ([step.term] + q.value) == terms + [step.term] + q.value; }
    }
  }

  function Behind(terms: seq<Term>, rest: V.Option<seq<Term>>): V.Option<seq<Term>> {
    if rest.None? then V.None else V.Some(terms + rest.value)
  }

  // ----- one element in front of a comma or the end

  ghost predicate Ends(tail: string) { tail == "" || tail[0] == ',' }

  ghost predicate Plain(el: string) { forall i :: 0 <= i < |el| ==> el[i] != ',' && el[i] != S.NUL && el[i] != '(' }

  /** Matching a word in front is being that word. */
  lemma MatchElement(el: string, tail: string, w: string)
    requires Plain(el) && Ends(tail) && IsWord(w)
    ensures Matches(el + tail, w) <==> el == w
  {
    var r := el + tail;
    assert |w| <= |el| ==> r[..|w|] == el[..|w|];
    assert |w| < |el| ==> S.Char(r, |w|) == el[|w|];
    if |el| < |w| <= |r| {
      assert r[..|w|][|el|] == ',';
      assert WordChar(w[|el|]);
    }
  }

  lemma {:induction false} FindElement(el: string, tail: string, ops: seq<Op>)
    requires Plain(el) && Ends(tail) && forall i :: 0 <= i < |ops| ==> HasWord(ops[i])
    ensures var f := FindOp(el + tail, ops);
            if f.Some? then HasWord(f.value) && f.value in ops && Word(f.value) == el else forall op :: op in ops ==> Word(op) != el
  {
    hide Word, Matches, Plain;
    if ops != [] {
      DecodeWord(ops[0]);
      MatchElement(el, tail, Word(ops[0]));
      FindElement(el, tail, ops[1..]);
    }
  }

  /** The chain of words finds the operator whose word the element is, if there is one. */
  lemma FindBoth(el: string, tail: string)
    requires Plain(el) && Ends(tail)
    ensures var a, b := FindOp(el + tail, BeforePrev()), FindOp(el + tail, FromPrev());
            var f := if a.Some? then a else b;
            if f.Some? then HasWord(f.value) && Word(f.value) == el else forall op :: HasWord(op) ==> Word(op) != el
  {
    hide BeforePrev, FromPrev, Word, Plain, FindOp;
    FindElement(el, tail, BeforePrev());
    FindElement(el, tail, FromPrev());
    forall op | HasWord(op) && FindOp(el + tail, BeforePrev()).None? && FindOp(el + tail, FromPrev()).None? ensures Word(op) != el {
      InTable(op);
    }
  }

  lemma NoPrevName(el: string, tail: string)
    requires Plain(el) && Ends(tail)
    ensures !PrevName(el + tail)
  {
    var r := el + tail;
    if |r| >= 5 {
      var front := r[..5];
      assert front[4] == r[4];
      assert |el| < 5 ==> front[|el|] == ',';
    }
  }

  ghost predicate IsName(w: string) { 0 < |w| <= MAX_NAME && forall i :: 0 <= i < |w| ==> NameChar(w[i]) }

  lemma {:induction false} NameElement(w: string, tail: string, i: nat, room: nat)
    requires i <= |w| <= i + room && Ends(tail) && forall j :: i <= j < |w| ==> NameChar(w[j])
    ensures NameEnd(w + tail, i, room) == |w|
    decreases |w| - i
  {
    if i < |w| { NameElement(w, tail, i + 1, room - 1); }
  }

  // ----- one turn of the parser on a printed element

  lemma WordNotNumber(op: Op, tail: string)
    requires HasWord(op) && Ends(tail) && op != OpInf
    ensures S.NumberEnd(Word(op) + tail) == 0
  {
    hide Word;
    var w := Word(op);
    var r := w + tail;
    WordHead(op);
    DecodeWord(op);
    assert r[0] == w[0] && WordChar(w[0]);
    if |w| > 1 { assert r[1] == w[1]; }
    assert |w| == 1 ==> S.Char(r, 1) == ',' || S.Char(r, 1) == S.NUL;
  }

  lemma StepWord(op: Op, tail: string, names: seq<string>, strtod: string -> Num)
    requires HasWord(op) && Ends(tail) && (op == OpInf ==> tail == "")
    ensures ParseStep(Word(op) + tail, names, strtod) == Read(Term(op, Fin(0.0), 0), |Word(op)|)
  {
    hide Word, FindOp, PrevName, NameEnd, S.NumberEnd, BeforePrev, FromPrev;
    var r := Word(op) + tail;
    DecodeWord(op);
    if op != OpInf { WordNotNumber(op, tail); }
    WordIsPlain(Word(op));
    NoNumberWithoutComma(Word(op), tail);
    FindBoth(Word(op), tail);
    NoPrevName(Word(op), tail);
    var a, b := FindOp(r, BeforePrev()), FindOp(r, FromPrev());
    var f := if a.Some? then a else b;
    if f.Some? { DecodeWord(f.value); }
  }

  lemma WordIsPlain(w: string)
    requires IsWord(w)
    ensures Plain(w)
  {
  }

  /** At the end of the text no number is accepted: the parser wants a comma behind it. */
  lemma NoNumberWithoutComma(el: string, tail: string)
    requires Plain(el)
    ensures tail == "" ==> forall k :: 0 <= k < |el + tail| ==> (el + tail)[k] != ','
  {
  }

  lemma StepInf(tail: string, names: seq<string>, strtod: string -> Num)
    requires tail != "" && tail[0] == ','
    ensures var step := ParseStep(Word(OpInf) + tail, names, strtod); step.Read? && step.term.op == OpNumber
  {
    hide FindOp, PrevName, NameEnd, BeforePrev, FromPrev, NumberValue;
    var r := "INF" + tail;
    assert r[0] == 'I' && r[1] == 'N' && r[2] == 'F' && r[3] == ',';
    assert S.Blanks(r, 0) == 0;
    assert S.NumberEnd(r) == 3;
  }

  lemma StepNumber(v: int, tail: string, names: seq<string>, strtod: string -> Num)
    requires Ends(tail)
    ensures var step := ParseStep(S.Dec(v) + tail, names, strtod);
            if tail == "" then step.Read? ==> step.term.op != OpNumber
            else step == Read(Term(OpNumber, Fin(v as real), 0), |S.Dec(v)|)
  {
    hide FindOp, PrevName, NameEnd, BeforePrev, FromPrev, S.NumberEnd, S.Dec, Word, S.IntegerValue, ParsePrev;
    var d := S.Dec(v);
    var r := d + tail;
    DecIsPlain(v);
    if tail == "" {
      NoNumberWithoutComma(d, tail);
      FoundWord(r);
      ParsePrevOp(r, names);
    } else {
      assert r == d + "," + tail[1..];
      S.ScanDec(v, tail[1..]);
      S.DecValue(v);
      assert r[..|d|] == d;
    }
  }

  lemma DecIsPlain(v: int)
    ensures Plain(S.Dec(v))
  {
    hide S.Dec;
    var d := S.Dec(v);
    forall i | 0 <= i < |d| ensures d[i] != ',' && d[i] != S.NUL && d[i] != '(' {
    }
  }

  lemma FoundWord(r: string)
    ensures FindOp(r, BeforePrev()).Some? ==> HasWord(FindOp(r, BeforePrev()).value)
    ensures FindOp(r, FromPrev()).Some? ==> HasWord(FindOp(r, FromPrev()).value)
  {
    hide BeforePrev, FromPrev;
    FoundLength(r, BeforePrev());
    FoundLength(r, FromPrev());
  }

  lemma ParsePrevOp(r: string, names: seq<string>)
    ensures PrevName(r) && ParsePrev(r, names).Read? ==> ParsePrev(r, names).term.op == OpPrevOther
  {
  }

  lemma CommaNotNumber(tail: string)
    requires tail != "" && tail[0] == ','
    ensures S.NumberEnd(tail) == 0
  {
    assert S.Blanks(tail, 0) == 0 && S.Digits(tail, 0, false) == 0;
    assert S.MantissaEnd(tail, 0, false) == 0;
  }

  /** Nothing in front of a comma is an error. */
  lemma StepEmpty(tail: string, names: seq<string>, strtod: string -> Num)
    requires tail != "" && tail[0] == ','
    ensures ParseStep(tail, names, strtod).Fail?
  {
    hide FindOp, PrevName, BeforePrev, FromPrev, Word, S.NumberEnd;
    assert [] + tail == tail;
    CommaNotNumber(tail);
    FindBoth([], tail);
    NoPrevName([], tail);
    var a, b := FindOp(tail, BeforePrev()), FindOp(tail, FromPrev());
    var f := if a.Some? then a else b;
    if f.Some? { DecodeWord(f.value); }
    assert S.Blanks(tail, 0) == 0 && S.Digits(tail, 0, false) == 0;
    assert S.MantissaEnd(tail, 0, false) == 0;
  }

  lemma NameIsPlain(w: string)
    requires IsName(w)
    ensures Plain(w) && !(exists i :: 0 <= i < |w| && w[i] == ',')
  {
    forall i | 0 <= i < |w| ensures w[i] != ',' && w[i] != S.NUL && w[i] != '(' {
      assert NameChar(w[i]);
    }
  }

  /** No operator word reaches over a parenthesis. */
  lemma {:induction false} NoOpBefore(r: string, ops: seq<Op>)
    requires |r| >= 5 && r[..5] == "PREV(" && forall i :: 0 <= i < |ops| ==> HasWord(ops[i])
    ensures FindOp(r, ops).None?
  {
    hide Word;
    if ops != [] {
      NoOpBefore(r, ops[1..]);
      DecodeWord(ops[0]);
      var w, front := Word(ops[0]), r[..5];
      assert forall i :: 0 <= i < 5 ==> r[i] == front[i];
      assert !WordChar(r[4]);
      assert |w| <= |r| && r[..|w|] == w ==> forall i :: 0 <= i < |w| ==> r[i] == w[i];
    }
  }

  lemma {:induction false} NameInParentheses(w: string, behind: string, i: nat, room: nat)
    requires i <= |w| <= i + room && (behind == "" || !NameChar(behind[0])) && forall j :: i <= j < |w| ==> NameChar(w[j])
    ensures NameEnd("PREV(" + w + behind, 5 + i, room) == 5 + |w|
    decreases |w| - i
  {
    var r := "PREV(" + w + behind;
    if i < |w| {
      NameInParentheses(w, behind, i + 1, room - 1);
    } else if behind != "" {
      assert r[5 + |w|] == behind[0];
    }
  }

  /** PREV of a name is read as PREV of the first source of this name, or is an error if there is none. What closes the name
      need not be a parenthesis. */
  lemma StepPrev(w: string, close: char, tail: string, names: seq<string>, strtod: string -> Num)
    requires IsName(w) && !NameChar(close) && Ends(tail)
    ensures ParseStep("PREV(" + w + [close] + tail, names, strtod) ==
            if Lookup(names, w) >= 0 then Read(Term(OpPrevOther, Fin(0.0), Lookup(names, w)), |w| + 6) else Fail
  {
    hide FindOp, BeforePrev, FromPrev, S.NumberEnd, Word, NumberValue, Lookup, NameEnd;
    var r := "PREV(" + w + [close] + tail;
    assert r == "PREV(" + w + ([close] + tail);
    assert r[..5] == "PREV(" && r[5..5 + |w|] == w && r[6 + |w|..] == tail;
    NameInParentheses(w, [close] + tail, 0, MAX_NAME);
    NoOpBefore(r, BeforePrev());
    PrevIsNoNumber(r);
    assert tail != "" ==> r[|w| + 6] == tail[0];
  }

  /** Without a name it is no PREV of a source, even if a source has the empty name. */
  lemma StepPrevEmpty(close: char, tail: string, names: seq<string>, strtod: string -> Num)
    requires !NameChar(close) && Ends(tail)
    ensures var step := ParseStep("PREV(" + [close] + tail, names, strtod); step.Fail? || step.term.op == OpVariable
  {
    hide FindOp, BeforePrev, FromPrev, S.NumberEnd, Word, NumberValue, Lookup, ParsePrev;
    var r := "PREV(" + [close] + tail;
    assert r[..5] == "PREV(" && r[5] == close;
    NoOpBefore(r, BeforePrev());
    NoOpBefore(r, FromPrev());
    PrevIsNoNumber(r);
    assert NameEnd(r, 5, MAX_NAME) == 5;
  }

  /** The characters of a name are letters, digits, the dash and the underscore. */
  lemma NameChars()
    ensures NameChar('-') && NameChar('_') && NameChar('0') && NameChar('9')
    ensures NameChar('a') && NameChar('z') && NameChar('A') && NameChar('Z')
    ensures forall c <- "/:@[`{.,()" :: !NameChar(c)
  {
  }

  lemma PrevIsNoNumber(r: string)
    requires |r| >= 5 && r[..5] == "PREV("
    ensures S.NumberEnd(r) == 0
  {
    assert r[0] == r[..5][0] && r[1] == r[..5][1];
  }

  ghost predicate IsOpWord(w: string) { exists op :: HasWord(op) && Word(op) == w }

  lemma StepName(w: string, tail: string, names: seq<string>, strtod: string -> Num)
    requires IsName(w) && Ends(tail)
    ensures var step := ParseStep(w + tail, names, strtod);
            if tail != "" && S.NumberEnd(w + ",") == |w| then step.Read? && step.term.op == OpNumber
            else if IsOpWord(w) then step.Read? && step.term.op != OpVariable
            else if Lookup(names, w) >= 0 then step == Read(Term(OpVariable, Fin(0.0), Lookup(names, w)), |w|)
            else step.Fail?
  {
    hide FindOp, PrevName, NameEnd, BeforePrev, FromPrev, S.NumberEnd, Word, NumberValue, Lookup, ParsePrev;
    var r := w + tail;
    NameIsPlain(w);
    NoNumberWithoutComma(w, tail);
    FindBoth(w, tail);
    NoPrevName(w, tail);
    NameElement(w, tail, 0, MAX_NAME);
    assert r[..|w|] == w;
    if tail != "" {
      var t := w + ",";
      assert S.Agree(r, t, |w|);
      S.NumberAgree(r, t, |w|);
      var k := S.NumberEnd(r);
      assert k < |w| ==> r[k] == w[k];
    }
    if IsOpWord(w) {
      var op :| HasWord(op) && Word(op) == w;
      FoundWord(r);
    }
  }

  // ----- the round trip

  /** The data source names that a database can have. */
  ghost predicate ValidNames(names: seq<string>) {
    forall i :: 0 <= i < |names| ==> IsName(names[i])
  }

  /** What the parser needs to read the i-th node back: a constant has a comma behind it, INF has none; a name is not an
      operator, is not a number if a comma follows, and belongs to no earlier data source; PREV of a source and COUNT
      are lost. */
  ghost predicate Readable(rpnc: seq<Compact>, names: seq<string>, i: nat)
    requires Named(rpnc, names) && i < |rpnc|
  {
    var c, last := rpnc[i], i == |rpnc| - 1;
    if c.op.OpNumber? then !last
    else if c.op.OpInf? then last
    else if c.op.OpPrevOther? || c.op.OpCount? then false
    else if c.op.OpVariable? then
      var w := names[c.val];
      !IsOpWord(w) && (last || S.NumberEnd(w + ",") != |w|) && forall j :: 0 <= j < c.val ==> names[j] != w
    else true
  }

  ghost predicate AllReadable(rpnc: seq<Compact>, names: seq<string>)
    requires Named(rpnc, names)
  {
    forall i :: 0 <= i < |rpnc| ==> Readable(rpnc, names, i)
  }

  function ExpandedAll(rpnc: seq<Compact>): (terms: seq<Term>)
    ensures |terms| == |rpnc| && forall i :: 0 <= i < |terms| ==> terms[i] == Expanded(rpnc[i])
  {
    seq(|rpnc|, i requires 0 <= i < |rpnc| => Expanded(rpnc[i]))
  }

  /** The first element is read as its node, and to its end, exactly if it is readable. */
  lemma FirstElement(rpnc: seq<Compact>, names: seq<string>, strtod: string -> Num)
    requires Named(rpnc, names) && rpnc != [] && ValidNames(names) && Printed(rpnc, names) != ""
    ensures var step := ParseStep(Printed(rpnc, names), names, strtod);
            if Readable(rpnc, names, 0) then step == Read(Expanded(rpnc[0]), |Element(rpnc[0], names)|)
            else step.Fail? || step.term != Expanded(rpnc[0])
  {
    hide ParseStep, Printed, Word, S.Dec, S.NumberEnd;
    var c, tail := rpnc[0], Tail(rpnc, names);
    PrintedFirst(rpnc, names);
    if c.op.OpNumber? {
      StepNumber(c.val, tail, names, strtod);
    } else if c.op.OpVariable? {
      StepName(names[c.val], tail, names, strtod);
    } else if c.op.OpPrevOther? || c.op.OpCount? {
      assert [] + tail == tail;
      StepEmpty(tail, names, strtod);
    } else if c.op.OpInf? && tail != "" {
      StepInf(tail, names, strtod);
    } else {
      StepWord(c.op, tail, names, strtod);
    }
  }

  lemma ReadableRest(rpnc: seq<Compact>, names: seq<string>)
    requires Named(rpnc, names) && |rpnc| > 1
    ensures Named(rpnc[1..], names)
    ensures AllReadable(rpnc, names) <==> Readable(rpnc, names, 0) && AllReadable(rpnc[1..], names)
  {
    hide Readable;
    var rest := rpnc[1..];
    forall i | 0 <= i < |rest| ensures Readable(rest, names, i) <==> Readable(rpnc, names, i + 1) {
      ReadableNext(rpnc, names, i);
    }
    if Readable(rpnc, names, 0) && AllReadable(rest, names) {
      forall i | 0 <= i < |rpnc| ensures Readable(rpnc, names, i) {
        if i > 0 { assert Readable(rest, names, i - 1); }
      }
    }
  }

  lemma ReadableNext(rpnc: seq<Compact>, names: seq<string>, i: nat)
    requires Named(rpnc, names) && i + 1 < |rpnc| && Named(rpnc[1..], names)
    ensures Readable(rpnc[1..], names, i) <==> Readable(rpnc, names, i + 1)
  {
    hide IsOpWord, S.NumberEnd;
    assert rpnc[1..][i] == rpnc[i + 1];
  }

  lemma EmptyUnreadable(rpnc: seq<Compact>, names: seq<string>)
    requires Named(rpnc, names) && rpnc != [] && ValidNames(names) && Printed(rpnc, names) == ""
    ensures !AllReadable(rpnc, names)
  {
    hide Printed, Word, S.Dec, S.NumberEnd;
    PrintedFirst(rpnc, names);
    var c := rpnc[0];
    assert Element(c, names) == "";
    if HasWord(c.op) { DecodeWord(c.op); }
    assert !Readable(rpnc, names, 0);
  }

  lemma OneReadable(rpnc: seq<Compact>, names: seq<string>)
    requires Named(rpnc, names) && |rpnc| == 1
    ensures AllReadable(rpnc, names) <==> Readable(rpnc, names, 0)
  {
    hide Readable;
  }

  /** When the whole parse is a given first node and a given rest. */
  lemma ParsedFirst(text: string, names: seq<string>, strtod: string -> Num, first: Term, more: seq<Term>)
    requires text != "" && more != []
    ensures var step := ParseStep(text, names, strtod);
            Parsed(text, names, strtod) == V.Some([first] + more) <==>
              step.Read? && step.term == first && step.next < |text| && text[step.next] == ',' &&
              Parsed(text[step.next + 1..], names, strtod) == V.Some(more)
  {
    hide ParseStep;
    var step := ParseStep(text, names, strtod);
    assert ([first] + more)[0] == first && ([first] + more)[1..] == more;
    if step.Read? && step.next < |text| && text[step.next] == ',' {
      var rest := Parsed(text[step.next + 1..], names, strtod);
      if rest.Some? { assert ([step.term] + rest.value)[0] == step.term && ([step.term] + rest.value)[1..] == rest.value; }
    }
  }

  lemma ParsedHead(text: string, names: seq<string>, strtod: string -> Num)
    requires text != ""
    ensures var step, p := ParseStep(text, names, strtod), Parsed(text, names, strtod);
            (p.Some? ==> step.Read? && p.value != [] && p.value[0] == step.term) &&
            (step.Read? && step.next == |text| ==> p == V.Some([step.term]))
  {
    hide ParseStep;
  }

  /** Parsing a printed program gives back the program exactly if all of it is readable. */
  lemma {:induction false} PrintParse(rpnc: seq<Compact>, names: seq<string>, strtod: string -> Num)
    requires Named(rpnc, names) && rpnc != [] && ValidNames(names)
    ensures Parsed(Printed(rpnc, names), names, strtod) == V.Some(ExpandedAll(rpnc)) <==> AllReadable(rpnc, names)
  {
    hide ParseStep, Printed, Element, Readable, AllReadable, ValidNames, Expanded;
    var text, el, tail := Printed(rpnc, names), Element(rpnc[0], names), Tail(rpnc, names);
    PrintedFirst(rpnc, names);
    if text == "" {
      EmptyUnreadable(rpnc, names);
    } else {
      FirstElement(rpnc, names, strtod);
      var step := ParseStep(text, names, strtod);
      if |rpnc| == 1 {
        OneReadable(rpnc, names);
        assert ExpandedAll(rpnc) == [Expanded(rpnc[0])] && text == el;
        ParsedHead(text, names, strtod);
      } else {
        ReadableRest(rpnc, names);
        PrintParse(rpnc[1..], names, strtod);
        assert step.Read? && step.next == |el| ==> text[|el|] == ',' && text[|el| + 1..] == Printed(rpnc[1..], names);
        assert ExpandedAll(rpnc) == [Expanded(rpnc[0])] + ExpandedAll(rpnc[1..]);
        ParsedFirst(text, names, strtod, Expanded(rpnc[0]), ExpandedAll(rpnc[1..]));
      }
    }
  }
}
