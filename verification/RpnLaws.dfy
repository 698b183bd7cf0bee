/** What the operators of the RPN calculator compute, as laws between them (rrd_rpncalc.c). */
module RpnLaws {
  import opened Numbers
  import opened Rpn
  import opened Sums

  lemma Arithmetic(lib: Lib, a: Num, b: Num)
    ensures Apply2(lib, OpAdd, a, b) == Add(a, b) && Apply2(lib, OpSub, a, b) == Sub(a, b)
    ensures Apply2(lib, OpMul, a, b) == Mul(a, b) && Apply2(lib, OpDiv, a, b) == Div(a, b)
  {
    hide Add, Sub, Mul, Div;
  }

  // ----- sums and differences

  /** ADD commutes and associates, has the neutral element 0, and leaves an infinite value what it is. */
  lemma Addition(lib: Lib, a: Num, b: Num, c: Num)
    ensures Apply2(lib, OpAdd, a, b) == Apply2(lib, OpAdd, b, a)
    ensures Apply2(lib, OpAdd, a, Fin(0.0)) == a
    ensures a.Fin? && b.Fin? ==>
      Apply2(lib, OpAdd, Apply2(lib, OpAdd, a, b), c) == Apply2(lib, OpAdd, a, Apply2(lib, OpAdd, b, c))
    ensures a.Fin? && !b.Fin? ==> Apply2(lib, OpAdd, a, b) == b
    ensures a.Fin? && b.Fin? && a != Fin(0.0) ==> Apply2(lib, OpAdd, a, b).Fin? && Apply2(lib, OpAdd, a, b) != b
  {
    Arithmetic(lib, a, b);
    Arithmetic(lib, b, a);
    Arithmetic(lib, a, Fin(0.0));
    Arithmetic(lib, Add(a, b), c);
    Arithmetic(lib, b, c);
    Arithmetic(lib, a, Add(b, c));
    hide Apply2;
    Total(a, b, c);
    hide Add;
  }

  lemma Total(a: Num, b: Num, c: Num)
    ensures Add(a, b) == Add(b, a) && Add(a, Fin(0.0)) == a
    ensures a.Fin? && b.Fin? ==> Add(Add(a, b), c) == Add(a, Add(b, c))
    ensures a.Fin? && !b.Fin? ==> Add(a, b) == b
    ensures a.Fin? && b.Fin? && a != Fin(0.0) ==> Add(a, b).Fin? && Add(a, b) != b
  {
    if a.Fin? && b.Fin? { Associates(a.v, b.v, c); }
  }

  lemma Associates(x: real, y: real, c: Num)
    ensures Add(Fin(x), Fin(y)) == Fin(x + y) && Add(Fin(x + y), c) == Add(Fin(x), Add(Fin(y), c))
  {
    if c.Fin? { assert x + y + c.v == x + (y + c.v); }
  }

  /** SUB undoes ADD and ADD undoes SUB; the mirror image of SUB is its opposite. */
  lemma Subtraction(lib: Lib, a: Num, b: Num)
    ensures b.Fin? ==> Apply2(lib, OpSub, Apply2(lib, OpAdd, a, b), b) == a
    ensures b.Fin? ==> Apply2(lib, OpAdd, Apply2(lib, OpSub, a, b), b) == a
    ensures Apply2(lib, OpSub, a, b) == Apply2(lib, OpSub, Fin(0.0), Apply2(lib, OpSub, b, a))
  {
    Arithmetic(lib, a, b);
    Arithmetic(lib, b, a);
    Arithmetic(lib, Add(a, b), b);
    Arithmetic(lib, Sub(a, b), b);
    Arithmetic(lib, Fin(0.0), Sub(b, a));
    hide Apply2;
    Difference(a, b);
    hide Add, Sub;
  }

  lemma Difference(a: Num, b: Num)
    ensures b.Fin? ==> Sub(Add(a, b), b) == a && Add(Sub(a, b), b) == a
    ensures Sub(a, b) == Sub(Fin(0.0), Sub(b, a))
  {
  }

  /** ADDNAN: ADD of two known values, otherwise the known one; unknown only if both are. */
  lemma AddNan(lib: Lib, a: Num, b: Num)
    ensures !a.NaN? && !b.NaN? ==> Apply2(lib, OpAddNan, a, b) == Apply2(lib, OpAdd, a, b)
    ensures a.NaN? ==> Apply2(lib, OpAddNan, a, b) == b
    ensures b.NaN? ==> Apply2(lib, OpAddNan, a, b) == a
  {
    hide Add;
  }

  // ----- products and quotients

  /** MUL has the neutral element 1, commutes, and by whole numbers repeats and reverses values. */
  lemma Multiplication(lib: Lib, a: Num, b: Num)
    ensures Apply2(lib, OpMul, Fin(1.0), a) == a
    ensures Apply2(lib, OpMul, a, b) == Apply2(lib, OpMul, b, a)
    ensures Apply2(lib, OpMul, Fin(2.0), a) == Apply2(lib, OpAdd, a, a)
    ensures Apply2(lib, OpMul, Fin(-1.0), a) == Apply2(lib, OpSub, Fin(0.0), a)
    ensures Apply2(lib, OpMul, Fin(0.0), a) == if a.Fin? then Fin(0.0) else NaN
  {
    Arithmetic(lib, Fin(1.0), a);
    Arithmetic(lib, a, b);
    Arithmetic(lib, b, a);
    Arithmetic(lib, Fin(2.0), a);
    Arithmetic(lib, a, a);
    Arithmetic(lib, Fin(-1.0), a);
    Arithmetic(lib, Fin(0.0), a);
    hide Apply2;
    Product(a, b);
    hide Mul, Sub, Add;
  }

  lemma Product(a: Num, b: Num)
    ensures Mul(Fin(1.0), a) == a && Mul(a, b) == Mul(b, a) && Mul(Fin(2.0), a) == Add(a, a)
    ensures Mul(Fin(-1.0), a) == Sub(Fin(0.0), a) && Mul(Fin(0.0), a) == if a.Fin? then Fin(0.0) else NaN
  {
    if a.Fin? && b.Fin? { Commutes(a.v, b.v); }
  }

  lemma Commutes(x: real, y: real)
    ensures x * y == y * x
  {
  }

  /** MUL associates and distributes over ADD. */
  lemma Distributes(lib: Lib, a: real, b: real, c: real)
    ensures var x, y, z := Fin(a), Fin(b), Fin(c);
            Apply2(lib, OpMul, x, Apply2(lib, OpAdd, y, z)) ==
            Apply2(lib, OpAdd, Apply2(lib, OpMul, x, y), Apply2(lib, OpMul, x, z)) &&
            Apply2(lib, OpMul, Apply2(lib, OpMul, x, y), z) == Apply2(lib, OpMul, x, Apply2(lib, OpMul, y, z))
  {
    assert a * (b + c) == a * b + a * c;
    assert (a * b) * c == a * (b * c);
  }

  /** The sign of a product of values that are not zero, also of infinite ones. */
  lemma SignOfProduct(lib: Lib, a: Num, b: Num)
    requires a != NaN && b != NaN && a != Fin(0.0) && b != Fin(0.0)
    ensures var p := Apply2(lib, OpMul, a, b);
            (Less(Fin(0.0), p) <==> (Less(Fin(0.0), a) <==> Less(Fin(0.0), b))) && (p.Fin? <==> a.Fin? && b.Fin?) &&
            !p.NaN? && p != Fin(0.0)
  {
    Arithmetic(lib, a, b);
    hide Apply2, Mul;
    if a.Fin? && b.Fin? {
      FiniteProduct(a.v, b.v);
    } else {
      InfiniteProduct(a, b);
    }
  }

  lemma FiniteProduct(x: real, y: real)
    requires x != 0.0 && y != 0.0
    ensures var p := Mul(Fin(x), Fin(y)); p.Fin? && p.v != 0.0 && (p.v > 0.0 <==> (x > 0.0 <==> y > 0.0))
  {
    ProductSign(x, y);
  }

  lemma InfiniteProduct(a: Num, b: Num)
    requires a != NaN && b != NaN && a != Fin(0.0) && b != Fin(0.0) && !(a.Fin? && b.Fin?)
    ensures Mul(a, b) == if Less(Fin(0.0), a) == Less(Fin(0.0), b) then PosInf else NegInf
  {
  }

  lemma ProductSign(x: real, y: real)
    requires x != 0.0 && y != 0.0
    ensures x * y != 0.0 && (x * y > 0.0 <==> (x > 0.0 <==> y > 0.0))
  {
    if x > 0.0 && y > 0.0 { assert x * y > 0.0; }
    else if x > 0.0 { assert x * -y > 0.0; }
    else if y > 0.0 { assert -x * y > 0.0; }
    else { assert -x * -y > 0.0; }
  }

  /** DIV undoes MUL and MUL undoes DIV by anything but zero. A value divided by zero is infinite, with the sign of the value,
      and zero is unknown; nothing is left of a finite value divided by an infinite one. */
  lemma Division(lib: Lib, a: Num, y: real)
    ensures y != 0.0 ==> Apply2(lib, OpMul, Apply2(lib, OpDiv, a, Fin(y)), Fin(y)) == a
    ensures y != 0.0 ==> Apply2(lib, OpDiv, Apply2(lib, OpMul, a, Fin(y)), Fin(y)) == a
    ensures Apply2(lib, OpDiv, a, Fin(0.0)) ==
            if a.NaN? || a == Fin(0.0) then NaN else if Less(Fin(0.0), a) then PosInf else NegInf
    ensures Apply2(lib, OpDiv, a, PosInf) == (if a.Fin? then Fin(0.0) else NaN) == Apply2(lib, OpDiv, a, NegInf)
    ensures Apply2(lib, OpDiv, a, NaN).NaN?
  {
    Arithmetic(lib, a, Fin(y));
    Arithmetic(lib, Div(a, Fin(y)), Fin(y));
    Arithmetic(lib, Mul(a, Fin(y)), Fin(y));
    Arithmetic(lib, a, Fin(0.0));
    Arithmetic(lib, a, PosInf);
    Arithmetic(lib, a, NegInf);
    Arithmetic(lib, a, NaN);
    hide Apply2;
    if y != 0.0 {
      Quotient(a, y);
      MultipleOf(a, y);
    }
    Quotients(a);
    hide Mul, Div;
  }

  lemma Quotients(a: Num)
    ensures Div(a, Fin(0.0)) == if a.NaN? || a == Fin(0.0) then NaN else if Less(Fin(0.0), a) then PosInf else NegInf
    ensures Div(a, PosInf) == (if a.Fin? then Fin(0.0) else NaN) == Div(a, NegInf) && Div(a, NaN).NaN?
  {
  }

  lemma Quotient(a: Num, y: real)
    requires y != 0.0
    ensures Mul(Div(a, Fin(y)), Fin(y)) == a
  {
    if a.Fin? { Undone(a.v, y); }
  }

  lemma MultipleOf(a: Num, y: real)
    requires y != 0.0
    ensures Div(Mul(a, Fin(y)), Fin(y)) == a
  {
    if a.Fin? { Undone(a.v, y); }
  }

  lemma Undone(x: real, y: real)
    requires y != 0.0
    ensures x / y * y == x && x * y / y == x
  {
    var q := x * y / y;
    assert q * y == x * y;
    Regular(q, x, y);
  }

  lemma Regular(p: real, q: real, y: real)
    requires y != 0.0 && p * y == q * y
    ensures p == q
  {
    assert (p - q) * y == 0.0;
  }

  // ----- the order

  /** The comparisons order the known values as numbers, between the two infinite ones. */
  lemma Order(a: Num, b: Num, c: Num)
    requires !a.NaN? && !b.NaN? && !c.NaN?
    ensures a.Fin? && b.Fin? ==> (AtMost(a, b) <==> a.v <= b.v)
    ensures AtMost(NegInf, a) && AtMost(a, PosInf)
    ensures AtMost(a, b) || AtMost(b, a)
    ensures AtMost(a, b) && AtMost(b, a) ==> a == b
    ensures AtMost(a, b) && AtMost(b, c) ==> AtMost(a, c)
  {
  }

  // ----- angles

  /** RAD2DEG and DEG2RAD are proportional. RAD2DEG is right to nine digits; DEG2RAD gains one part in six millions, as its
      constant lacks a digit, so that going there and back does not. */
  lemma Angles(lib: Lib, x: real)
    ensures var d, r := Apply1(lib, OpRad2Deg, Fin(x)), Apply1(lib, OpDeg2Rad, Fin(x));
            d == Apply2(lib, OpMul, Fin(x), Apply1(lib, OpRad2Deg, Fin(1.0))) &&
            r == Apply2(lib, OpMul, Fin(x), Apply1(lib, OpDeg2Rad, Fin(1.0)))
    ensures var d := Apply1(lib, OpRad2Deg, Fin(3.14159265)); d.Fin? && 179.9999997 < d.v < 180.0
    ensures var r := Apply1(lib, OpDeg2Rad, Fin(180.0)); r.Fin? && 3.141593136 <= r.v < 3.141593137
    ensures var y := Apply1(lib, OpDeg2Rad, Apply1(lib, OpRad2Deg, Fin(x)));
            y.Fin? && (x > 0.0 ==> x * 1.00000015 < y.v < x * 1.00000016)
  {
  }

  // ----- the stack

  function Word(op: Op): Node { Node(op, NaN, 0, 0, 0, 0) }

  /** DUP repeats the topmost value, POP takes it off, and EXC exchanges the two topmost ones. */
  lemma StackWords(ctx: Context, s: seq<Num>, a: Num, b: Num)
    ensures After(ctx, Stack(s + [a]), Word(OpDup)) == Stack(s + [a] + [a])
    ensures After(ctx, Stack(s + [a] + [b]), Word(OpPop)) == Stack(s + [a])
    ensures After(ctx, Stack(s + [a] + [b]), Word(OpExc)) == Stack(s + [b] + [a])
  {
    hide Apply1, Apply2, Apply3, Operand, PerformCounted;
    var one, two := s + [a], s + [a] + [b];
    assert two[..|s| + 1] == one && two[..|s|] == s;
  }

  lemma Binary(ctx: Context, s: seq<Num>, a: Num, b: Num, op: Op)
    requires ShapeOf(op).Binary?
    ensures After(ctx, Stack(s + [a] + [b]), Word(op)) == Stack(s + [Apply2(ctx.lib, op, a, b)])
  {
    hide Apply1, Apply2, Apply3, Operand, PerformCounted;
    var two := s + [a] + [b];
    assert two[..|s|] == s;
  }

  /** What they are used for: DUP and ADD double a value, EXC before SUB turns the difference round. */
  lemma StackUses(ctx: Context, s: seq<Num>, a: Num, b: Num)
    ensures After(ctx, After(ctx, Stack(s + [a]), Word(OpDup)), Word(OpAdd)) ==
            Stack(s + [Apply2(ctx.lib, OpMul, Fin(2.0), a)])
    ensures After(ctx, After(ctx, Stack(s + [a] + [b]), Word(OpExc)), Word(OpSub)) ==
            Stack(s + [Apply2(ctx.lib, OpSub, Fin(0.0), Apply2(ctx.lib, OpSub, a, b))])
  {
    StackWords(ctx, s, a, a);
    StackWords(ctx, s, a, b);
    Binary(ctx, s, a, a, OpAdd);
    Binary(ctx, s, b, a, OpSub);
    Multiplication(ctx.lib, a, b);
    Subtraction(ctx.lib, b, a);
    hide After, Apply2;
  }

  /** Operators that a library computes get their operands in the order in which they were pushed. */
  lemma LibraryWords(ctx: Context, s: seq<Num>, a: Num, b: Num)
    ensures After(ctx, Stack(s + [a] + [b]), Word(OpMod)) == Stack(s + [ctx.lib.fmod(a, b)])
    ensures After(ctx, Stack(s + [a] + [b]), Word(OpAtan2)) == Stack(s + [ctx.lib.atan2(a, b)])
  {
    Binary(ctx, s, a, b, OpMod);
    Binary(ctx, s, a, b, OpAtan2);
    hide After;
  }

  // ----- averages

  /** The known values are finite and lie between lo and hi. */
  predicate Between(s: seq<Num>, lo: real, hi: real) {
    forall i :: 0 <= i < |s| ==> s[i].NaN? || (s[i].Fin? && lo <= s[i].v <= hi)
  }

  lemma {:induction false} SumBetween(s: seq<Num>, lo: real, hi: real)
    requires Between(s, lo, hi)
    ensures KnownSum(s).Fin? && Times(KnownCount(s), lo) <= KnownSum(s).v <= Times(KnownCount(s), hi)
  {
    hide Times;
    if s == [] {
      TimesNext(0, lo);
      TimesNext(0, hi);
    } else {
      SumBetween(s[1..], lo, hi);
      TimesNext(KnownCount(s[1..]), lo);
      TimesNext(KnownCount(s[1..]), hi);
    }
  }

  /** AVG lies between the least and the greatest of the known values, and is unknown exactly if there is none. */
  lemma AverageBetween(s: seq<Num>, lo: real, hi: real)
    requires Between(s, lo, hi)
    ensures Average(s).NaN? <==> forall i :: 0 <= i < |s| ==> s[i].NaN?
    ensures Average(s).NaN? || (Average(s).Fin? && lo <= Average(s).v <= hi)
  {
    SumBetween(s, lo, hi);
    NoneKnown(s);
    hide KnownSum, KnownCount, Between, Times;
    if KnownCount(s) > 0 {
      Mean(KnownSum(s).v, KnownCount(s), lo, hi, 0.0);
    }
  }

  lemma {:induction false} NoneKnown(s: seq<Num>)
    ensures KnownCount(s) == 0 <==> forall i :: 0 <= i < |s| ==> s[i].NaN?
  {
    if s != [] {
      NoneKnown(s[1..]);
      assert forall i :: 0 <= i < |s[1..]| ==> s[1..][i] == s[i + 1];
    }
  }

  /** Each value of t is the one of s raised by d. */
  predicate Raised(s: seq<Num>, t: seq<Num>, d: real) {
    |s| == |t| && forall i :: 0 <= i < |s| ==> !s[i].PosInf? && !s[i].NegInf? && t[i] == Add(s[i], Fin(d))
  }

  lemma {:induction false} SumRaised(s: seq<Num>, t: seq<Num>, d: real)
    requires Raised(s, t, d)
    ensures KnownCount(t) == KnownCount(s) && KnownSum(s).Fin?
    ensures KnownSum(t) == Fin(KnownSum(s).v + Times(KnownCount(s), d))
  {
    hide Times;
    if s == [] {
      TimesNext(0, d);
    } else {
      SumRaised(s[1..], t[1..], d);
      TimesNext(KnownCount(s[1..]), d);
    }
  }

  /** Raising every known value raises AVG by as much. */
  lemma AverageRaised(s: seq<Num>, t: seq<Num>, d: real)
    requires Raised(s, t, d)
    ensures Average(t) == Add(Average(s), Fin(d))
  {
    SumRaised(s, t, d);
    hide KnownSum, KnownCount, Raised, Times;
    if KnownCount(s) > 0 {
      Mean(KnownSum(s).v, KnownCount(s), 0.0, 0.0, d);
    }
  }

  /** The count that REV and AVG take off the stack is a value without its fraction, and fits an int. */
  lemma CountCast(a: Num, k: int)
    ensures IsInt(a) ==>
      var n := ToInt(a);
      a.Fin? && -2147483648 <= n <= 2147483647 && (a.v >= 0.0 ==> n as real <= a.v < (n + 1) as real) &&
      (a.v <= 0.0 ==> (n - 1) as real < a.v <= n as real)
    ensures a == Fin(k as real) && -2147483648 <= k <= 2147483647 ==> IsInt(a) && ToInt(a) == k
  {
    Whole(k);
    Whole(-k);
  }

  lemma Whole(n: int)
    ensures (n as real).Floor == n
  {
  }
}
