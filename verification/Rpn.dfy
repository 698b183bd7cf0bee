/** Numbers of the RPN calculator: doubles without rounding and without the sign of zero. */
module Numbers {

  datatype Num = NaN | PosInf | NegInf | Fin(v: real)

  function Neg(a: Num): Num {
    match a
    case NaN => NaN
    case PosInf => NegInf
    case NegInf => PosInf
    case Fin(x) => Fin(-x)
  }

  function Add(a: Num, b: Num): Num {
    if a.NaN? || b.NaN? then NaN
    else if a.Fin? && b.Fin? then Fin(a.v + b.v)
    else if a.Fin? then b
    else if b.Fin? || a == b then a
    else NaN
  }

  function Sub(a: Num, b: Num): Num { Add(a, Neg(b)) }

  function Sign(a: Num): int {
    match a
    case NaN => 0
    case PosInf => 1
    case NegInf => -1
    case Fin(x) => if x > 0.0 then 1 else if x < 0.0 then -1 else 0
  }

  function Infinite(sign: int): Num {
    if sign > 0 then PosInf else if sign < 0 then NegInf else NaN
  }

  function Mul(a: Num, b: Num): Num {
    if a.NaN? || b.NaN? then NaN
    else if a.Fin? && b.Fin? then Fin(a.v * b.v)
    else Infinite(if Sign(a) == Sign(b) then Sign(a) * Sign(a) else if Sign(a) == 0 || Sign(b) == 0 then 0 else -1)
  }

  /** A zero divisor counts as a positive one. */
  function Div(a: Num, b: Num): Num {
    if a.NaN? || b.NaN? then NaN
    else if b.Fin? then
      if b.v != 0.0 then (if a.Fin? then Fin(a.v / b.v) else if b.v > 0.0 then a else Neg(a))
      else Infinite(Sign(a))
    else if a.Fin? then Fin(0.0)
    else NaN
  }

  /** The C comparison `a < b`: false when an operand is unknown. */
  predicate Less(a: Num, b: Num) {
    match (a, b)
    case (Fin(x), Fin(y)) => x < y
    case (NegInf, Fin(_)) => true
    case (NegInf, PosInf) => true
    case (Fin(_), PosInf) => true
    case _ => false
  }

  /** The C comparison `a == b`. */
  predicate Same(a: Num, b: Num) { !a.NaN? && a == b }

  function Truth(b: bool): Num { if b then Fin(1.0) else Fin(0.0) }

  function Abs(a: Num): Num { if Less(a, Fin(0.0)) then Neg(a) else a }

  function Floor(a: Num): Num { if a.Fin? then Fin(a.v.Floor as real) else a }

  function Ceil(a: Num): Num { Neg(Floor(Neg(a))) }

  /** The cast to int, which C defines only for what fits. */
  predicate IsInt(a: Num) { a.Fin? && -2147483649.0 < a.v < 2147483648.0 }

  function ToInt(a: Num): int
    requires IsInt(a)
  {
    if a.v >= 0.0 then a.v.Floor else -((-a.v).Floor)
  }
}

/** The RPN stack machine (rpn_calc in rrd_rpncalc.c). */
module Rpn {
  import opened Numbers

  /** The operators in the order of their numbers in stored programs. The end marker is the length of a program here. */
  datatype Op =
    | OpNumber | OpVariable | OpInf | OpPrev | OpNegInf | OpUnkn | OpNow | OpTime | OpAdd | OpMod | OpSub | OpMul
    | OpDiv | OpSin | OpDup | OpExc | OpPop | OpCos | OpLog | OpExp | OpLt | OpLe | OpGt | OpGe | OpEq | OpIf
    | OpMin | OpMax | OpLimit | OpFloor | OpCeil | OpUn | OpLtime | OpNe | OpIsInf | OpPrevOther | OpCount
    | OpAtan | OpSqrt | OpSort | OpRev | OpTrend | OpTrendNan | OpAtan2 | OpRad2Deg | OpDeg2Rad
    | OpPredict | OpPredictSigma | OpAvg | OpAbs | OpAddNan | OpMinNan | OpMaxNan

  /** One node: a constant, or a source with a pointer into its data, the cells per row and the seconds per row. */
  datatype Node = Node(op: Op, val: Num, ptr: nat, data: int, dsCnt: nat, step: int)

  /** Library functions, the clock and the time zone: nothing is assumed of them. */
  datatype Lib = Lib(fmod: (Num, Num) -> Num, atan2: (Num, Num) -> Num, unary: (Op, Num) -> Num, now: Num, tzOffset: int -> int)

  /** What one run can see: the data of the sources, the time, and the outputs computed before. */
  datatype Context = Context(lib: Lib, sources: seq<seq<Num>>, time: int, outputs: seq<Num>)

  /** `Outside` and `NoCount` are no errors of the code: the calculator reads outside a source's data, or casts to an int
      what does not fit one, and C defines nothing after. */
  datatype Error = Underflow | VdefInCalc | FinalSize | Outside | NoCount

  datatype Outcome = Stack(s: seq<Num>) | Failed(error: Error)

  datatype Result = Ok(value: Num) | Err(error: Error)

  /** How an operator uses the stack. `Counted`: as many values as the top one says; `Dynamic`: the others whose arity is
      found on the stack. */
  datatype Shape = Push | Unary | Binary | Ternary | Dup | Pop | Exc | Counted | Dynamic

  function ShapeOf(op: Op): Shape {
    match op
    case OpNumber | OpVariable | OpPrevOther | OpCount | OpPrev | OpUnkn | OpInf | OpNegInf | OpNow | OpTime | OpLtime => Push
    case OpSin | OpAtan | OpRad2Deg | OpDeg2Rad | OpCos | OpCeil | OpFloor | OpLog | OpExp | OpUn | OpIsInf | OpSqrt | OpAbs => Unary
    case OpAdd | OpAddNan | OpSub | OpMul | OpDiv | OpMod | OpAtan2 | OpLt | OpLe | OpGt | OpGe | OpNe | OpEq
       | OpMin | OpMinNan | OpMax | OpMaxNan => Binary
    case OpIf | OpLimit => Ternary
    case OpDup => Dup
    case OpPop => Pop
    case OpExc => Exc
    case OpRev | OpAvg => Counted
    case OpSort | OpTrend | OpTrendNan | OpPredict | OpPredictSigma => Dynamic
  }

  predicate IsRef(op: Op) { op.OpVariable? || op.OpPrevOther? }

  predicate IsSource(node: Node) { IsRef(node.op) }

  /** The node is a source without data, which the calculator refuses. */
  predicate IsVdef(node: Node) { IsSource(node) && node.dsCnt == 0 }

  /** The pointer of a source lies in its data where the calculator reads it. */
  predicate Readable(ctx: Context, node: Node) {
    IsSource(node) && node.dsCnt != 0 ==>
      node.ptr < |ctx.sources| && node.step > 0 &&
      (node.op.OpVariable? ==> 0 <= node.data < |ctx.sources[node.ptr]|) &&
      (node.op.OpPrevOther? && |ctx.outputs| > 0 ==> 0 <= node.data - node.dsCnt < |ctx.sources[node.ptr]|)
  }

  ghost predicate AllReadable(ctx: Context, prog: seq<Node>) {
    forall i :: 0 <= i < |prog| ==> Readable(ctx, prog[i])
  }

  /** The programs that are modelled. */
  predicate Modelled(prog: seq<Node>) {
    forall i :: 0 <= i < |prog| ==> !ShapeOf(prog[i].op).Dynamic?
  }

  predicate HasArity(op: Op) { !ShapeOf(op).Dynamic? && !ShapeOf(op).Counted? }

  /** No operator finds its arity on the stack. */
  predicate Fixed(prog: seq<Node>) {
    forall i :: 0 <= i < |prog| ==> HasArity(prog[i].op)
  }

  lemma FixedModelled(prog: seq<Node>)
    ensures Fixed(prog) ==> Modelled(prog)
  {
  }

  // ----- the operators

  function Operand(ctx: Context, node: Node): Num
    requires ShapeOf(node.op).Push? && !IsVdef(node) && Readable(ctx, node)
  {
    match node.op
    case OpNumber => node.val
    case OpVariable => ctx.sources[node.ptr][node.data]
    case OpPrevOther => if |ctx.outputs| <= 0 then NaN else ctx.sources[node.ptr][node.data - node.dsCnt]
    case OpCount => Fin((|ctx.outputs| + 1) as real)
    case OpPrev => if |ctx.outputs| <= 0 then NaN else ctx.outputs[|ctx.outputs| - 1]
    case OpUnkn => NaN
    case OpInf => PosInf
    case OpNegInf => Neg(PosInf)
    case OpNow => ctx.lib.now
    case OpTime => Fin(ctx.time as real)
    case OpLtime => Add(Fin(ctx.lib.tzOffset(ctx.time) as real), Fin(ctx.time as real))
  }

  function Apply1(lib: Lib, op: Op, a: Num): Num
    requires ShapeOf(op).Unary?
  {
    match op
    case OpRad2Deg => Mul(Fin(57.29577951), a)
    case OpDeg2Rad => Mul(Fin(0.0174532952), a)
    case OpCeil => Ceil(a)
    case OpFloor => Floor(a)
    case OpUn => Truth(a.NaN?)
    case OpIsInf => Truth(a.PosInf? || a.NegInf?)
    case OpAbs => Abs(a)
    case _ => lib.unary(op, a)
  }

  /** A comparison: unknown as soon as one side is, the left side first. */
  function Compare(a: Num, b: Num, holds: bool): Num {
    if a.NaN? then a else if b.NaN? then b else Truth(holds)
  }

  function Apply2(lib: Lib, op: Op, a: Num, b: Num): Num
    requires ShapeOf(op).Binary?
  {
    match op
    case OpAdd => Add(a, b)
    case OpAddNan => if a.NaN? then b else if b.NaN? then a else Add(a, b)
    case OpSub => Sub(a, b)
    case OpMul => Mul(a, b)
    case OpDiv => Div(a, b)
    case OpMod => lib.fmod(a, b)
    case OpAtan2 => lib.atan2(a, b)
    case OpLt => Compare(a, b, Less(a, b))
    case OpLe => Compare(a, b, Less(a, b) || Same(a, b))
    case OpGt => Compare(a, b, Less(b, a))
    case OpGe => Compare(a, b, Less(b, a) || Same(a, b))
    case OpNe => Compare(a, b, !Same(a, b))
    case OpEq => Compare(a, b, Same(a, b))
    case OpMin => if a.NaN? then a else if b.NaN? || Less(b, a) then b else a
    case OpMinNan => if a.NaN? then b else if b.NaN? then a else if Less(b, a) then b else a
    case OpMax => if a.NaN? then a else if b.NaN? || Less(a, b) then b else a
    case OpMaxNan => if a.NaN? then b else if b.NaN? then a else if Less(a, b) then b else a
  }

  function Apply3(op: Op, a: Num, b: Num, c: Num): Num
    requires ShapeOf(op).Ternary?
  {
    match op
    case OpIf => if a.NaN? || Same(a, Fin(0.0)) then c else b
    case OpLimit =>
      if a.NaN? then a else if b.NaN? then b else if c.NaN? then c
      else if Less(a, b) || Less(c, a) then NaN else a
  }

  /** a <= b for known values. */
  predicate AtMost(a: Num, b: Num) { !a.NaN? && !b.NaN? && !Less(b, a) }

  /** MIN and MAX are unknown if one side is; the others of their kind take the known side. Otherwise the result is the side
      that bounds both. */
  lemma MinMax(lib: Lib, a: Num, b: Num)
    ensures a.NaN? || b.NaN? ==> Apply2(lib, OpMin, a, b).NaN? && Apply2(lib, OpMax, a, b).NaN?
    ensures a.NaN? ==> Apply2(lib, OpMinNan, a, b) == b == Apply2(lib, OpMaxNan, a, b)
    ensures b.NaN? ==> Apply2(lib, OpMinNan, a, b) == a == Apply2(lib, OpMaxNan, a, b)
    ensures !a.NaN? && !b.NaN? ==>
      var lo, hi := Apply2(lib, OpMin, a, b), Apply2(lib, OpMax, a, b);
      (lo == a || lo == b) && AtMost(lo, a) && AtMost(lo, b) && (hi == a || hi == b) && AtMost(a, hi) && AtMost(b, hi) &&
      lo == Apply2(lib, OpMinNan, a, b) && hi == Apply2(lib, OpMaxNan, a, b)
  {
  }

  /** Comparisons are unknown exactly if one side is, and otherwise 0 or 1; each has its mirror and its complement. */
  lemma Comparisons(lib: Lib, a: Num, b: Num)
    ensures Apply2(lib, OpLt, a, b) == Apply2(lib, OpGt, b, a) && Apply2(lib, OpLe, a, b) == Apply2(lib, OpGe, b, a)
    ensures a.NaN? || b.NaN? <==> Apply2(lib, OpLt, a, b).NaN?
    ensures a.NaN? || b.NaN? <==> Apply2(lib, OpEq, a, b).NaN?
    ensures !a.NaN? && !b.NaN? ==>
      Apply2(lib, OpLt, a, b) == Truth(!AtMost(b, a)) && Apply2(lib, OpGe, a, b) == Truth(AtMost(b, a)) &&
      Apply2(lib, OpLe, a, b) == Truth(AtMost(a, b)) && Apply2(lib, OpEq, a, b) == Truth(AtMost(a, b) && AtMost(b, a)) &&
      Apply2(lib, OpNe, a, b) == Truth(!(AtMost(a, b) && AtMost(b, a)))
  {
  }

  /** LIMIT keeps a value between its bounds and makes every other unknown; IF takes the second operand exactly if the first
      is known and not zero. */
  lemma LimitAndIf(a: Num, b: Num, c: Num)
    ensures Apply3(OpLimit, a, b, c) == if AtMost(b, a) && AtMost(a, c) then a else NaN
    ensures Apply3(OpIf, a, b, c) == if a.NaN? || a == Fin(0.0) then c else b
  {
  }

  /** FLOOR and CEIL are the next whole numbers. */
  lemma Rounding(lib: Lib, x: real) returns (f: int, c: int)
    ensures Apply1(lib, OpFloor, Fin(x)) == Fin(f as real) && f as real <= x < (f + 1) as real
    ensures Apply1(lib, OpCeil, Fin(x)) == Fin(c as real) && (c - 1) as real < x <= c as real
  {
    hide Floor, Ceil;
    FloorIs(x);
    CeilIs(x);
    f, c := x.Floor, -((-x).Floor);
  }

  /** What the tests are used for: IF with UN puts a substitute for exactly the unknown values. */
  lemma Substitute(lib: Lib, a: Num, z: Num)
    ensures Apply3(OpIf, Apply1(lib, OpUn, a), z, a) == if a.NaN? then z else a
  {
  }

  /** ISINF finds the values that are known and differ from themselves by an unknown. */
  lemma Infinite(lib: Lib, a: Num)
    ensures Same(Apply1(lib, OpIsInf, a), Fin(1.0)) <==> !a.NaN? && Apply2(lib, OpSub, a, a).NaN?
  {
  }

  /** ABS is the larger of a value and its opposite. */
  lemma AbsIsMax(lib: Lib, a: Num)
    ensures Apply1(lib, OpAbs, a) == Apply2(lib, OpMax, a, Apply2(lib, OpSub, Fin(0.0), a))
  {
    hide Sub, Abs, Less;
    Opposite(a);
  }

  lemma Opposite(a: Num)
    ensures Sub(Fin(0.0), a) == Neg(a) && Abs(a) == if !a.NaN? && Less(a, Neg(a)) then Neg(a) else a
  {
  }

  lemma FloorIs(x: real)
    ensures Floor(Fin(x)) == Fin(x.Floor as real) && x.Floor as real <= x < (x.Floor + 1) as real
  {
  }

  lemma CeilIs(x: real)
    ensures var n := -((-x).Floor); Ceil(Fin(x)) == Fin(n as real) && (n - 1) as real < x <= n as real
  {
    var m := (-x).Floor;
    assert m as real <= -x < (m + 1) as real;
    assert (-m) as real == -(m as real);
  }

  // ----- the machine on values; the top of the stack is the last element

  function Perform(ctx: Context, node: Node, s: seq<Num>): (r: Outcome)
    requires !ShapeOf(node.op).Dynamic?
  {
    var n := |s|;
    match ShapeOf(node.op)
    case Push =>
      if IsVdef(node) then Failed(VdefInCalc)
      else if !Readable(ctx, node) then Failed(Outside)
      else Stack(s + [Operand(ctx, node)])
    case Unary => if n < 1 then Failed(Underflow) else Stack(s[..n - 1] + [Apply1(ctx.lib, node.op, s[n - 1])])
    case Binary =>
      if n < 2 then Failed(Underflow) else Stack(s[..n - 2] + [Apply2(ctx.lib, node.op, s[n - 2], s[n - 1])])
    case Ternary =>
      if n < 3 then Failed(Underflow) else Stack(s[..n - 3] + [Apply3(node.op, s[n - 3], s[n - 2], s[n - 1])])
    case Dup => if n < 1 then Failed(Underflow) else Stack(s + [s[n - 1]])
    case Pop => if n < 1 then Failed(Underflow) else Stack(s[..n - 1])
    case Exc => if n < 2 then Failed(Underflow) else Stack(s[..n - 2] + [s[n - 1], s[n - 2]])
    case Counted =>
      if n < 1 then Failed(Underflow)
      else if !IsInt(s[n - 1]) then Failed(NoCount)
      else PerformCounted(node.op, s[..n - 1], ToInt(s[n - 1]))
  }

  function Reversed(s: seq<Num>): (r: seq<Num>)
    ensures |r| == |s| && forall i :: 0 <= i < |r| ==> r[i] == s[|s| - 1 - i]
  {
    seq(|s|, i requires 0 <= i < |s| => s[|s| - 1 - i])
  }

  /** The sum of the known values, from the top of the stack down, and their number. */
  function KnownSum(s: seq<Num>): Num {
    if s == [] then Fin(0.0)
    else if s[0].NaN? then KnownSum(s[1..])
    else Add(KnownSum(s[1..]), s[0])
  }

  function KnownCount(s: seq<Num>): nat {
    if s == [] then 0 else KnownCount(s[1..]) + (if s[0].NaN? then 0 else 1)
  }

  function Average(s: seq<Num>): Num {
    if KnownCount(s) == 0 then NaN else Div(KnownSum(s), Fin(KnownCount(s) as real))
  }

  /** REV and AVG on the topmost `count` values. */
  function PerformCounted(op: Op, s: seq<Num>, count: int): Outcome
    requires ShapeOf(op).Counted?
  {
    if |s| < count then Failed(Underflow)
    else
      var k := if count > 0 then |s| - count else |s|;
      Stack(s[..k] + if op.OpRev? then Reversed(s[k..]) else [Average(s[k..])])
  }

  function After(ctx: Context, r: Outcome, node: Node): Outcome
    requires !ShapeOf(node.op).Dynamic?
  {
    if r.Failed? then r else Perform(ctx, node, r.s)
  }

  function Run(ctx: Context, prog: seq<Node>): Outcome
    requires Modelled(prog)
  {
    if prog == [] then Stack([]) else After(ctx, Run(ctx, prog[..|prog| - 1]), prog[|prog| - 1])
  }

  function Eval(ctx: Context, prog: seq<Node>): Result
    requires Modelled(prog)
  {
    var r := Run(ctx, prog);
    if r.Failed? then Err(r.error) else if |r.s| == 1 then Ok(r.s[0]) else Err(FinalSize)
  }

  /** The node after it has been used: a source that has a row ending now moves on to the next row. */
  function Moved(node: Node, time: int): Node {
    if IsSource(node) && node.dsCnt != 0 && node.step > 0 && time % node.step == 0 then node.(data := node.data + node.dsCnt) else node
  }

  // ----- the machine in memory

  lemma RunNext(ctx: Context, prog: seq<Node>, i: nat)
    requires Modelled(prog) && i < |prog|
    ensures Modelled(prog[..i]) && Modelled(prog[..i + 1])
    ensures Run(ctx, prog[..i + 1]) == After(ctx, Run(ctx, prog[..i]), prog[i])
  {
    assert prog[..i + 1][..i] == prog[..i];
  }

  /** Once an operator fails, the whole run fails in that way. */
  lemma {:induction false} RunFails(ctx: Context, prog: seq<Node>, i: nat)
    requires Modelled(prog) && i <= |prog|
    ensures Modelled(prog[..i])
    ensures Run(ctx, prog[..i]).Failed? ==> Run(ctx, prog) == Run(ctx, prog[..i])
    decreases |prog| - i
  {
    hide Perform;
    if i < |prog| {
      RunNext(ctx, prog, i);
      RunFails(ctx, prog, i + 1);
    } else {
      assert prog[..i] == prog;
    }
  }

  class RpnStack {
    var s: array<Num>
    const stackBlock: nat := 100

    constructor ()
      ensures fresh(s) && s.Length == 0
    {
      s := new Num[0];
    }

    /** Room for the largest operator. */
    method Grow(stptr: int)
      requires -1 <= stptr < s.Length
      modifies this
      ensures stptr + 5 <= s.Length && (s == old(s) || fresh(s))
      ensures s[..stptr + 1] == old(s[..stptr + 1])
    {
      if stptr + 5 > s.Length {
        var t := new Num[s.Length + stackBlock];
        var k := 0;
        while k < s.Length
          modifies t
          invariant 0 <= k <= s.Length
          invariant forall j :: 0 <= j < k ==> t[j] == s[j]
        {
          t[k] := s[k];
          k := k + 1;
        }
        s := t;
      }
    }

    /** One turn of the switch. */
    method Switch(ghost ctx: Context, node: Node, lib: Lib, sources: seq<seq<Num>>, time: int, output: array<Num>, outputIdx: nat,
                  stptr: int) returns (stptr': int, failed: bool, error: Error)
      requires -1 <= stptr && stptr + 5 <= s.Length && outputIdx <= output.Length && s != output
      requires ctx == Context(lib, sources, time, output[..outputIdx]) && !ShapeOf(node.op).Dynamic?
      modifies s
      ensures var r := old(Perform(ctx, node, s[..stptr + 1]));
              if failed then r == Failed(error) else -1 <= stptr' < s.Length && r == Stack(s[..stptr' + 1])
    {
      hide Apply1, Apply2, Apply3, Operand;
      failed, error, stptr' := false, Underflow, stptr;
      var shape := ShapeOf(node.op);
      if shape.Push? {
        if IsVdef(node) {
          return stptr, true, VdefInCalc;
        }
        if !Readable(Context(lib, sources, time, output[..outputIdx]), node) {
          return stptr, true, Outside;
        }
        stptr' := stptr + 1;
        s[stptr'] := Operand(Context(lib, sources, time, output[..outputIdx]), node);
      } else if shape.Unary? {
        if stptr < 0 { return stptr, true, Underflow; }
        s[stptr] := Apply1(lib, node.op, s[stptr]);
      } else if shape.Binary? {
        if stptr < 1 { return stptr, true, Underflow; }
        s[stptr - 1] := Apply2(lib, node.op, s[stptr - 1], s[stptr]);
        stptr' := stptr - 1;
      } else if shape.Ternary? {
        if stptr < 2 { return stptr, true, Underflow; }
        s[stptr - 2] := Apply3(node.op, s[stptr - 2], s[stptr - 1], s[stptr]);
        stptr' := stptr - 2;
      } else if shape.Dup? {
        if stptr < 0 { return stptr, true, Underflow; }
        s[stptr + 1] := s[stptr];
        stptr' := stptr + 1;
      } else if shape.Pop? {
        if stptr < 0 { return stptr, true, Underflow; }
        stptr' := stptr - 1;
      } else if shape.Counted? {
        stptr', failed, error := SwitchCounted(node.op, stptr);
      } else {
        if stptr < 1 { return stptr, true, Underflow; }
        var dummy := s[stptr];
        s[stptr] := s[stptr - 1];
        s[stptr - 1] := dummy;
      }
    }

    /** REV and AVG. */
    method SwitchCounted(op: Op, stptr: int) returns (stptr': int, failed: bool, error: Error)
      requires -1 <= stptr && stptr + 5 <= s.Length && ShapeOf(op).Counted?
      modifies s
      ensures var old' := old(s[..stptr + 1]);
              if stptr < 0 then failed && error == Underflow
              else if !IsInt(old'[stptr]) then failed && error == NoCount
              else var r := PerformCounted(op, old'[..stptr], ToInt(old'[stptr]));
                   if failed then r == Failed(error) else -1 <= stptr' < s.Length && r == Stack(s[..stptr' + 1])
    {
      hide Average, Reversed, ToInt, IsInt;
      failed, error, stptr' := false, Underflow, stptr;
      if stptr < 0 { return stptr, true, Underflow; }
      if !IsInt(s[stptr]) { return stptr, true, NoCount; }
      var spn := ToInt(s[stptr]);
      stptr' := stptr - 1;
      if stptr' < spn - 1 { return stptr', true, Underflow; }
      assert s[..stptr + 1][..stptr] == s[..stptr];
      if op.OpRev? {
        Rev(stptr', spn);
      } else {
        stptr' := Avg(stptr', spn);
      }
    }

    method Rev(stptr: int, spn: int)
      requires -1 <= stptr && stptr + 1 <= s.Length && spn <= stptr + 1
      modifies s
      ensures PerformCounted(OpRev, old(s[..stptr + 1]), spn) == Stack(s[..stptr + 1])
    {
      ghost var before := s[..stptr + 1];
      if spn > 0 {
        ghost var k := stptr + 1 - spn;
        ReverseTop(stptr - spn + 1, stptr);
        assert s[..stptr + 1] == s[..k] + s[k..stptr + 1] && before[..k] == old(s[..k]) && before[k..] == old(s[k..stptr + 1]);
      } else {
        assert before[..|before|] == before && before[|before|..] == [] && Reversed([]) == [];
      }
    }

    method Avg(stptr: int, spn: int) returns (stptr': int)
      requires -1 <= stptr && stptr + 1 < s.Length && spn <= stptr + 1
      modifies s
      ensures -1 <= stptr' < s.Length && PerformCounted(OpAvg, old(s[..stptr + 1]), spn) == Stack(s[..stptr' + 1])
    {
      hide Average;
      ghost var before := s[..stptr + 1];
      var v;
      stptr', v := AverageTop(stptr, spn);
      assert before[stptr' + 1..] == s[stptr' + 1..stptr + 1] && before[..stptr' + 1] == s[..stptr' + 1];
      stptr' := stptr' + 1;
      s[stptr'] := v;
      assert s[..stptr' + 1] == before[..stptr'] + [v];
    }

    /** The swapping loop of REV. */
    method ReverseTop(lo: nat, hi: nat)
      requires lo <= hi < s.Length
      modifies s
      ensures s[..lo] == old(s[..lo]) && s[lo..hi + 1] == Reversed(old(s[lo..hi + 1])) && s[hi + 1..] == old(s[hi + 1..])
    {
      var p, q := lo, hi;
      while p < q
        invariant lo <= p <= q + 1 <= hi + 1 && p - lo == hi - q
        invariant forall i :: 0 <= i < s.Length && (i < lo || i > hi || p <= i <= q) ==> s[i] == old(s[i])
        invariant forall i :: lo <= i < p || q < i <= hi ==> s[i] == old(s[lo + hi - i])
      {
        s[q], s[p] := s[p], s[q];
        p, q := p + 1, q - 1;
      }
      ghost var was := old(s[lo..hi + 1]);
      forall i | 0 <= i <= hi - lo ensures s[lo..hi + 1][i] == Reversed(was)[i] {
        assert s[lo + i] == old(s[hi - i]);
        assert was[|was| - 1 - i] == old(s[hi - i]);
      }
    }

    /** The loop of AVG: takes `count` values off the stack and gives their average. */
    method AverageTop(stptr: int, count: int) returns (stptr': int, v: Num)
      requires -1 <= stptr < s.Length && count <= stptr + 1
      ensures stptr' == stptr - (if count > 0 then count else 0)
      ensures v == Average(s[stptr' + 1..stptr + 1])
    {
      var i, sum, known := count, Fin(0.0), 0;
      stptr' := stptr;
      while i > 0
        invariant (count > 0 ==> 0 <= i <= count) && (count <= 0 ==> i == count)
        invariant stptr' == stptr - (if count > 0 then count - i else 0) && -1 <= stptr' <= stptr
        invariant sum == KnownSum(s[stptr' + 1..stptr + 1]) && known == KnownCount(s[stptr' + 1..stptr + 1])
      {
        assert s[stptr'..stptr + 1][1..] == s[stptr' + 1..stptr + 1];
        var val := s[stptr'];
        stptr' := stptr' - 1;
        i := i - 1;
        if !val.NaN? {
          known := known + 1;
          sum := Add(sum, val);
        }
      }
      v := if known > 0 then Div(sum, Fin(known as real)) else NaN;
    }

    /** `rpn_calc`: the program's value goes to the output cell, and every source used moves on. The code does not check
        its reads; where one is outside, the outcome is `Outside`. */
    method Calc(lib: Lib, sources: seq<seq<Num>>, rpnp: array<Node>, time: int, output: array<Num>, outputIdx: nat) returns (result: Result)
      requires outputIdx < output.Length && s != output && Modelled(rpnp[..])
      modifies this, s, rpnp, output
      ensures s == old(s) || fresh(s)
      ensures result == old(Eval(Context(lib, sources, time, output[..outputIdx]), rpnp[..]))
      ensures output[..] == if result.Ok? then old(output[..])[outputIdx := result.value] else old(output[..])
      ensures result.Ok? ==> forall i :: 0 <= i < rpnp.Length ==> rpnp[i] == Moved(old(rpnp[i]), time)
    {
      hide Perform, Run;
      ghost var prog := rpnp[..];
      ghost var ctx := Context(lib, sources, time, output[..outputIdx]);
      RunStart(ctx, prog);
      var stptr := -1;
      var rpi := 0;
      while rpi < rpnp.Length
        invariant 0 <= rpi <= rpnp.Length && -1 <= stptr < s.Length && (s == old(s) || fresh(s)) && s != output
        invariant Modelled(prog[..rpi]) && Run(ctx, prog[..rpi]) == Stack(s[..stptr + 1])
        invariant output[..] == old(output[..])
        invariant forall i :: 0 <= i < rpi ==> rpnp[i] == Moved(prog[i], time)
        invariant forall i :: rpi <= i < rpnp.Length ==> rpnp[i] == prog[i]
      {
        Grow(stptr);
        RunNext(ctx, prog, rpi);
        var failed, error;
        stptr, failed, error := Switch(ctx, rpnp[rpi], lib, sources, time, output, outputIdx, stptr);
        if failed {
          RunFails(ctx, prog, rpi + 1);
          return Err(error);
        }
        rpnp[rpi] := Moved(rpnp[rpi], time);
        rpi := rpi + 1;
      }
      assert prog[..rpi] == prog;
      if stptr != 0 {
        return Err(FinalSize);
      }
      output[outputIdx] := s[0];
      return Ok(s[0]);
    }
  }

  lemma RunStart(ctx: Context, prog: seq<Node>)
    requires Modelled(prog)
    ensures Modelled(prog[..0]) && Run(ctx, prog[..0]) == Stack([])
  {
  }

  // ----- REV and AVG

  /** Reversing twice changes nothing. */
  lemma RevTwice(s: seq<Num>, count: int)
    requires count <= |s|
    ensures PerformCounted(OpRev, s, count).Stack? && |PerformCounted(OpRev, s, count).s| == |s|
    ensures PerformCounted(OpRev, PerformCounted(OpRev, s, count).s, count) == Stack(s)
  {
    var k := if count > 0 then |s| - count else |s|;
    var t := s[..k] + Reversed(s[k..]);
    assert t[..k] == s[..k] && t[k..] == Reversed(s[k..]);
    assert Reversed(Reversed(s[k..])) == s[k..];
    assert s[..k] + s[k..] == s;
  }

  /** The average does not depend on the order of the values, whatever of them is unknown or infinite. */
  lemma AvgOfReversed(s: seq<Num>, count: int)
    requires count <= |s|
    ensures PerformCounted(OpRev, s, count).Stack?
    ensures PerformCounted(OpAvg, PerformCounted(OpRev, s, count).s, count) == PerformCounted(OpAvg, s, count)
  {
    hide KnownSum, KnownCount;
    var k := if count > 0 then |s| - count else |s|;
    var t := s[..k] + Reversed(s[k..]);
    assert t[..k] == s[..k] && t[k..] == Reversed(s[k..]);
    KnownReversed(s[k..]);
  }

  lemma {:induction false} KnownReversed(s: seq<Num>)
    ensures KnownSum(Reversed(s)) == KnownSum(s) && KnownCount(Reversed(s)) == KnownCount(s)
  {
    if s == [] {
      assert Reversed(s) == [];
    } else {
      KnownReversed(s[1..]);
      KnownLast(Reversed(s[1..]), s[0]);
      assert Reversed(s) == Reversed(s[1..]) + [s[0]];
    }
  }

  /** One more value at the other end. */
  lemma {:induction false} KnownLast(s: seq<Num>, a: Num)
    ensures KnownSum(s + [a]) == if a.NaN? then KnownSum(s) else Add(KnownSum(s), a)
    ensures KnownCount(s + [a]) == KnownCount(s) + if a.NaN? then 0 else 1
  {
    hide Add;
    if s == [] {
      assert s + [a] == [a] && [a][1..] == [];
    } else {
      assert (s + [a])[1..] == s[1..] + [a];
      KnownLast(s[1..], a);
      AddSwap(KnownSum(s[1..]), a, s[0]);
    }
  }

  lemma AddSwap(x: Num, a: Num, b: Num)
    ensures Add(Add(x, a), b) == Add(Add(x, b), a)
  {
  }

  // ----- success is static

  /** How many values an operator needs, and how many more it leaves. */
  function Need(op: Op): nat {
    match ShapeOf(op)
    case Push | Counted | Dynamic => 0
    case Unary | Dup | Pop => 1
    case Binary | Exc => 2
    case Ternary => 3
  }

  function Gain(op: Op): int {
    match ShapeOf(op)
    case Push | Dup => 1
    case Unary | Exc | Counted | Dynamic => 0
    case Binary | Pop => -1
    case Ternary => -2
  }

  /** The depth reached by counting alone, or -1 as soon as an operator does not find enough values. */
  function Depth(prog: seq<Node>): (d: int)
    ensures d >= -1
  {
    if prog == [] then 0 else
    var d := Depth(prog[..|prog| - 1]);
    var op := prog[|prog| - 1].op;
    if d < Need(op) then -1 else d + Gain(op)
  }

  predicate NoVdef(prog: seq<Node>) {
    forall i :: 0 <= i < |prog| ==> !IsVdef(prog[i])
  }

  lemma PerformDepth(ctx: Context, node: Node, s: seq<Num>)
    requires HasArity(node.op)
    ensures var r := Perform(ctx, node, s);
            (r.Stack? <==> |s| >= Need(node.op) && !IsVdef(node) && Readable(ctx, node)) && (r.Stack? ==> |r.s| == |s| + Gain(node.op))
  {
    hide Operand, Apply1, Apply2, Apply3;
  }

  lemma {:induction false} RunDepth(ctx: Context, prog: seq<Node>)
    requires Fixed(prog)
    ensures var r := Run(ctx, prog);
            (r.Stack? <==> Depth(prog) >= 0 && NoVdef(prog) && AllReadable(ctx, prog)) && (r.Stack? ==> |r.s| == Depth(prog))
  {
    hide Perform, Need, Gain;
    if prog != [] {
      var front := prog[..|prog| - 1];
      RunDepth(ctx, front);
      var r := Run(ctx, front);
      if r.Stack? {
        PerformDepth(ctx, prog[|prog| - 1], r.s);
      }
    }
  }

  /** Whether a program of fixed-arity operators succeeds does not depend on any value: it does so if and only if counting
      never runs short and ends with one, no source is without data, and every pointer lies in its data. */
  lemma SucceedsStatically(ctx: Context, prog: seq<Node>)
    requires Fixed(prog)
    ensures Eval(ctx, prog).Ok? <==> Depth(prog) == 1 && NoVdef(prog) && AllReadable(ctx, prog)
  {
    hide Run, Depth;
    RunDepth(ctx, prog);
  }

  lemma {:induction false} RunOutside(ctx: Context, prog: seq<Node>)
    requires Fixed(prog) && NoVdef(prog)
    ensures AllReadable(ctx, prog) ==> Run(ctx, prog) != Failed(Outside)
    ensures Depth(prog) >= 0 && !AllReadable(ctx, prog) ==> Run(ctx, prog) == Failed(Outside)
  {
    hide Perform, Need, Gain, Readable, IsVdef, ShapeOf;
    if prog != [] {
      var front, node := prog[..|prog| - 1], prog[|prog| - 1];
      assert !IsVdef(node) && HasArity(node.op);
      assert AllReadable(ctx, prog) <==> AllReadable(ctx, front) && Readable(ctx, node) by {
        assert forall i :: 0 <= i < |front| ==> prog[i] == front[i];
      }
      RunOutside(ctx, front);
      RunDepth(ctx, front);
      if Run(ctx, front).Stack? {
        PerformOutside(ctx, node, Run(ctx, front).s);
      }
    }
  }

  /** A program that gets through has read inside the data, whatever its operators take from the stack. */
  lemma {:induction false} RunReadable(ctx: Context, prog: seq<Node>)
    requires Modelled(prog)
    ensures Run(ctx, prog).Stack? ==> AllReadable(ctx, prog)
  {
    hide Readable, ShapeOf;
    if prog != [] && Run(ctx, prog).Stack? {
      var front, node := prog[..|prog| - 1], prog[|prog| - 1];
      RunReadable(ctx, front);
      PerformReadable(ctx, node, Run(ctx, front).s);
      assert forall i :: 0 <= i < |front| ==> prog[i] == front[i];
    }
  }

  lemma PerformReadable(ctx: Context, node: Node, s: seq<Num>)
    requires !ShapeOf(node.op).Dynamic? && Perform(ctx, node, s).Stack?
    ensures Readable(ctx, node)
  {
    hide Operand, Apply1, Apply2, Apply3, PerformCounted;
  }

  lemma PerformOutside(ctx: Context, node: Node, s: seq<Num>)
    requires HasArity(node.op) && !IsVdef(node)
    ensures Perform(ctx, node, s) == Failed(Outside) <==> !Readable(ctx, node)
  {
    hide Operand, Apply1, Apply2, Apply3;
  }

  /** A program that would succeed but for its pointers reads outside, and one whose pointers are right never does. */
  lemma ReadsOutside(ctx: Context, prog: seq<Node>)
    requires Fixed(prog) && NoVdef(prog)
    ensures AllReadable(ctx, prog) ==> Eval(ctx, prog) != Err(Outside)
    ensures Depth(prog) == 1 ==> (Eval(ctx, prog) == Err(Outside) <==> !AllReadable(ctx, prog))
  {
    hide Run, Depth, AllReadable;
    RunOutside(ctx, prog);
  }

  /** No operator of fixed arity casts to an int. */
  lemma {:induction false} CountsNothing(ctx: Context, prog: seq<Node>)
    requires Fixed(prog)
    ensures Run(ctx, prog) != Failed(NoCount)
  {
    hide Perform, ShapeOf;
    if prog != [] {
      var front, node := prog[..|prog| - 1], prog[|prog| - 1];
      CountsNothing(ctx, front);
      if Run(ctx, front).Stack? {
        PerformNoCount(ctx, node, Run(ctx, front).s);
      }
    }
  }

  lemma PerformNoCount(ctx: Context, node: Node, s: seq<Num>)
    requires HasArity(node.op)
    ensures Perform(ctx, node, s) != Failed(NoCount)
  {
    hide Operand, Apply1, Apply2, Apply3;
  }

  // ----- expression trees

  datatype Expr = Leaf(node: Node) | Un(u: Node, e: Expr) | Bin(b: Node, l: Expr, r: Expr) | Tri(t: Node, x: Expr, y: Expr, z: Expr)

  ghost predicate WellFormed(ctx: Context, e: Expr) {
    match e
    case Leaf(n) => ShapeOf(n.op).Push? && !IsVdef(n) && Readable(ctx, n)
    case Un(n, a) => ShapeOf(n.op).Unary? && WellFormed(ctx, a)
    case Bin(n, a, b) => ShapeOf(n.op).Binary? && WellFormed(ctx, a) && WellFormed(ctx, b)
    case Tri(n, a, b, c) => ShapeOf(n.op).Ternary? && WellFormed(ctx, a) && WellFormed(ctx, b) && WellFormed(ctx, c)
  }

  function Value(ctx: Context, e: Expr): Num
    requires WellFormed(ctx, e)
  {
    match e
    case Leaf(n) => Operand(ctx, n)
    case Un(n, a) => Apply1(ctx.lib, n.op, Value(ctx, a))
    case Bin(n, a, b) => Apply2(ctx.lib, n.op, Value(ctx, a), Value(ctx, b))
    case Tri(n, a, b, c) => Apply3(n.op, Value(ctx, a), Value(ctx, b), Value(ctx, c))
  }

  /** Operands first, then the operator. */
  function Postfix(e: Expr): seq<Node> {
    match e
    case Leaf(n) => [n]
    case Un(n, a) => Postfix(a) + [n]
    case Bin(n, a, b) => Postfix(a) + Postfix(b) + [n]
    case Tri(n, a, b, c) => Postfix(a) + Postfix(b) + Postfix(c) + [n]
  }

  lemma RunAppend(ctx: Context, prog: seq<Node>, n: Node)
    requires AllReadable(ctx, prog) && Fixed(prog) && Readable(ctx, n) && HasArity(n.op)
    ensures AllReadable(ctx, prog + [n]) && Fixed(prog + [n])
    ensures Run(ctx, prog + [n]) == After(ctx, Run(ctx, prog), n)
  {
    hide Perform;
    assert (prog + [n])[..|prog|] == prog;
  }

  /** The operators of a tree, and what the machine does with them on top of values. */
  lemma PerformTop(ctx: Context, n: Node, s: seq<Num>, a: Num, b: Num, c: Num)
    requires Readable(ctx, n)
    ensures ShapeOf(n.op).Unary? ==> Perform(ctx, n, s + [a]) == Stack(s + [Apply1(ctx.lib, n.op, a)])
    ensures ShapeOf(n.op).Binary? ==> Perform(ctx, n, s + [a] + [b]) == Stack(s + [Apply2(ctx.lib, n.op, a, b)])
    ensures ShapeOf(n.op).Ternary? ==> Perform(ctx, n, s + [a] + [b] + [c]) == Stack(s + [Apply3(n.op, a, b, c)])
  {
    hide Apply1, Apply2, Apply3;
    assert (s + [a])[..|s|] == s && (s + [a] + [b])[..|s|] == s && (s + [a] + [b] + [c])[..|s|] == s;
  }

  /** The postfix form of a tree puts the tree's value on the stack. */
  lemma {:induction false} RunPostfix(ctx: Context, prog: seq<Node>, e: Expr)
    requires AllReadable(ctx, prog) && Fixed(prog) && Run(ctx, prog).Stack? && WellFormed(ctx, e)
    ensures AllReadable(ctx, prog + Postfix(e)) && Fixed(prog + Postfix(e))
    ensures Run(ctx, prog + Postfix(e)) == Stack(Run(ctx, prog).s + [Value(ctx, e)])
    decreases e
  {
    hide Run, Operand, Apply1, Apply2, Apply3, ShapeOf, AllReadable, Readable;
    FixedModelled(prog);
    hide Fixed, Modelled;
    var s := Run(ctx, prog).s;
    match e
    case Leaf(n) =>
      RunAppend(ctx, prog, n);
    case Un(n, a) =>
      RunPostfix(ctx, prog, a);
      RunOperator(ctx, prog + Postfix(a), n, s, Value(ctx, a), NaN, NaN);
      assert prog + Postfix(a) + [n] == prog + Postfix(e);
    case Bin(n, a, b) =>
      RunPostfix(ctx, prog, a);
      RunPostfix(ctx, prog + Postfix(a), b);
      RunOperator(ctx, prog + Postfix(a) + Postfix(b), n, s, Value(ctx, a), Value(ctx, b), NaN);
      assert prog + Postfix(a) + Postfix(b) + [n] == prog + Postfix(e);
    case Tri(n, a, b, c) =>
      RunPostfix(ctx, prog, a);
      RunPostfix(ctx, prog + Postfix(a), b);
      RunPostfix(ctx, prog + Postfix(a) + Postfix(b), c);
      RunOperator(ctx, prog + Postfix(a) + Postfix(b) + Postfix(c), n, s, Value(ctx, a), Value(ctx, b), Value(ctx, c));
      assert prog + Postfix(a) + Postfix(b) + Postfix(c) + [n] == prog + Postfix(e);
  }

  /** An operator behind its operands. */
  lemma RunOperator(ctx: Context, prog: seq<Node>, n: Node, s: seq<Num>, a: Num, b: Num, c: Num)
    requires AllReadable(ctx, prog) && Fixed(prog) && (ShapeOf(n.op).Unary? || ShapeOf(n.op).Binary? || ShapeOf(n.op).Ternary?)
    requires Run(ctx, prog) ==
      Stack(if ShapeOf(n.op).Unary? then s + [a] else if ShapeOf(n.op).Binary? then s + [a] + [b] else s + [a] + [b] + [c])
    ensures AllReadable(ctx, prog + [n]) && Fixed(prog + [n])
    ensures ShapeOf(n.op).Unary? ==> Run(ctx, prog + [n]) == Stack(s + [Apply1(ctx.lib, n.op, a)])
    ensures ShapeOf(n.op).Binary? ==> Run(ctx, prog + [n]) == Stack(s + [Apply2(ctx.lib, n.op, a, b)])
    ensures ShapeOf(n.op).Ternary? ==> Run(ctx, prog + [n]) == Stack(s + [Apply3(n.op, a, b, c)])
  {
    hide Run, Apply1, Apply2, Apply3, ShapeOf, Perform, AllReadable, Fixed;
    OperatorReadable(ctx, n);
    RunAppend(ctx, prog, n);
    PerformTop(ctx, n, s, a, b, c);
  }

  lemma OperatorReadable(ctx: Context, n: Node)
    ensures !ShapeOf(n.op).Push? ==> Readable(ctx, n)
  {
  }

  /** `rpn_calc` on the postfix form of a tree yields the value of the tree. */
  lemma EvalPostfix(ctx: Context, e: Expr)
    requires WellFormed(ctx, e)
    ensures AllReadable(ctx, Postfix(e)) && Fixed(Postfix(e)) && Eval(ctx, Postfix(e)) == Ok(Value(ctx, e))
  {
    hide WellFormed, Value, Postfix;
    RunPostfix(ctx, [], e);
    assert [] + Postfix(e) == Postfix(e);
  }

  // ----- the tree that a program computes

  /** The machine with trees for values. */
  datatype Trees = Trees(ts: seq<Expr>) | Stuck

  function BuildNode(n: Node, ts: seq<Expr>): Trees {
    var k := |ts|;
    match ShapeOf(n.op)
    case Push => if IsVdef(n) then Stuck else Trees(ts + [Leaf(n)])
    case Unary => if k < 1 then Stuck else Trees(ts[..k - 1] + [Un(n, ts[k - 1])])
    case Binary => if k < 2 then Stuck else Trees(ts[..k - 2] + [Bin(n, ts[k - 2], ts[k - 1])])
    case Ternary => if k < 3 then Stuck else Trees(ts[..k - 3] + [Tri(n, ts[k - 3], ts[k - 2], ts[k - 1])])
    case Dup => if k < 1 then Stuck else Trees(ts + [ts[k - 1]])
    case Pop => if k < 1 then Stuck else Trees(ts[..k - 1])
    case Exc => if k < 2 then Stuck else Trees(ts[..k - 2] + [ts[k - 1], ts[k - 2]])
    case Counted | Dynamic => Stuck
  }

  function Build(prog: seq<Node>): Trees {
    if prog == [] then Trees([]) else
    var r := Build(prog[..|prog| - 1]);
    if r.Stuck? then Stuck else BuildNode(prog[|prog| - 1], r.ts)
  }

  ghost predicate AllWell(ctx: Context, ts: seq<Expr>) {
    forall i :: 0 <= i < |ts| ==> WellFormed(ctx, ts[i])
  }

  /** The stack holds the values of the trees. */
  ghost predicate Holds(ctx: Context, ts: seq<Expr>, s: seq<Num>) {
    |ts| == |s| && AllWell(ctx, ts) && forall i :: 0 <= i < |ts| ==> s[i] == Value(ctx, ts[i])
  }

  lemma BuildStep(ctx: Context, n: Node, ts: seq<Expr>, s: seq<Num>)
    requires Readable(ctx, n) && HasArity(n.op) && Holds(ctx, ts, s)
    ensures var r, t := Perform(ctx, n, s), BuildNode(n, ts);
            (r.Stack? <==> t.Trees?) && (r.Stack? ==> Holds(ctx, t.ts, r.s))
  {
    hide Operand, Apply1, Apply2, Apply3, ShapeOf;
    var t := BuildNode(n, ts);
    if t.Trees? {
      forall i | 0 <= i < |t.ts| ensures WellFormed(ctx, t.ts[i]) {
      }
    }
  }

  /** Whatever program succeeds computes the value of the tree that it builds. */
  lemma {:induction false} RunBuild(ctx: Context, prog: seq<Node>)
    requires AllReadable(ctx, prog) && Fixed(prog)
    ensures var r, t := Run(ctx, prog), Build(prog);
            (r.Stack? <==> t.Trees?) && (r.Stack? ==> Holds(ctx, t.ts, r.s))
  {
    hide Perform, BuildNode, Holds;
    if prog != [] {
      var front := prog[..|prog| - 1];
      RunBuild(ctx, front);
      if Run(ctx, front).Stack? {
        BuildStep(ctx, prog[|prog| - 1], Build(front).ts, Run(ctx, front).s);
      }
    } else {
      HoldsNone(ctx);
    }
  }

  lemma HoldsNone(ctx: Context)
    ensures Holds(ctx, [], [])
  {
  }

  /** No operator copies, drops or swaps values. */
  predicate Linear(prog: seq<Node>) {
    forall i :: 0 <= i < |prog| ==>
      var shape := ShapeOf(prog[i].op); shape.Push? || shape.Unary? || shape.Binary? || shape.Ternary?
  }

  function Flat(ts: seq<Expr>): seq<Node> {
    if ts == [] then [] else Flat(ts[..|ts| - 1]) + Postfix(ts[|ts| - 1])
  }

  lemma {:induction false} FlatAppend(ts: seq<Expr>, e: Expr)
    ensures Flat(ts + [e]) == Flat(ts) + Postfix(e)
  {
    assert (ts + [e])[..|ts|] == ts;
  }

  lemma {:induction false} FlatUn(n: Node, ts: seq<Expr>)
    requires |ts| >= 1
    ensures var k := |ts|; Flat(ts[..k - 1] + [Un(n, ts[k - 1])]) == Flat(ts) + [n]
  {
    hide Flat;
    var k := |ts|;
    FlatAppend(ts[..k - 1], ts[k - 1]);
    FlatAppend(ts[..k - 1], Un(n, ts[k - 1]));
    assert ts == ts[..k - 1] + [ts[k - 1]];
  }

  lemma {:induction false} FlatBin(n: Node, ts: seq<Expr>)
    requires |ts| >= 2
    ensures var k := |ts|; Flat(ts[..k - 2] + [Bin(n, ts[k - 2], ts[k - 1])]) == Flat(ts) + [n]
  {
    hide Flat;
    var k := |ts|;
    var front := ts[..k - 2];
    FlatAppend(front, ts[k - 2]);
    FlatAppend(front + [ts[k - 2]], ts[k - 1]);
    FlatAppend(front, Bin(n, ts[k - 2], ts[k - 1]));
    assert ts == front + [ts[k - 2]] + [ts[k - 1]];
  }

  lemma {:induction false} FlatTri(n: Node, ts: seq<Expr>)
    requires |ts| >= 3
    ensures var k := |ts|; Flat(ts[..k - 3] + [Tri(n, ts[k - 3], ts[k - 2], ts[k - 1])]) == Flat(ts) + [n]
  {
    hide Flat;
    var k := |ts|;
    var front := ts[..k - 3];
    FlatAppend(front, ts[k - 3]);
    FlatAppend(front + [ts[k - 3]], ts[k - 2]);
    FlatAppend(front + [ts[k - 3]] + [ts[k - 2]], ts[k - 1]);
    FlatAppend(front, Tri(n, ts[k - 3], ts[k - 2], ts[k - 1]));
    assert ts == front + [ts[k - 3]] + [ts[k - 2]] + [ts[k - 1]];
  }

  lemma {:induction false} FlatNode(n: Node, ts: seq<Expr>)
    requires Linear([n]) && BuildNode(n, ts).Trees?
    ensures Flat(BuildNode(n, ts).ts) == Flat(ts) + [n]
  {
    hide ShapeOf, Flat;
    assert ShapeOf([n][0].op) == ShapeOf(n.op);
    FlatAppend(ts, Leaf(n));
    if |ts| >= 1 { FlatUn(n, ts); }
    if |ts| >= 2 { FlatBin(n, ts); }
    if |ts| >= 3 { FlatTri(n, ts); }
  }

  lemma {:induction false} FlatBuild(prog: seq<Node>)
    requires Linear(prog) && Build(prog).Trees?
    ensures Flat(Build(prog).ts) == prog
  {
    hide BuildNode, ShapeOf;
    if prog != [] {
      var front, n := prog[..|prog| - 1], prog[|prog| - 1];
      FlatBuild(front);
      FlatNode(n, Build(front).ts);
      assert prog == front + [n];
    }
  }

  /** A program without DUP, POP and EXC succeeds exactly if it is the postfix form of a tree, and it yields the value of
      every such tree. */
  lemma SucceedsIffTree(ctx: Context, prog: seq<Node>)
    requires AllReadable(ctx, prog) && Fixed(prog) && Linear(prog)
    ensures Eval(ctx, prog).Ok? <==> exists e :: WellFormed(ctx, e) && Postfix(e) == prog
    ensures forall e :: WellFormed(ctx, e) && Postfix(e) == prog ==> Eval(ctx, prog) == Ok(Value(ctx, e))
  {
    hide Run, Build, WellFormed, Value, Postfix, ShapeOf;
    forall e | WellFormed(ctx, e) && Postfix(e) == prog ensures Eval(ctx, prog) == Ok(Value(ctx, e)) {
      EvalPostfix(ctx, e);
    }
    if Eval(ctx, prog).Ok? {
      RunBuild(ctx, prog);
      FlatBuild(prog);
      var ts := Build(prog).ts;
      FlatAppend([], ts[0]);
      assert ts == [] + [ts[0]] && Flat([]) == [];
      assert WellFormed(ctx, ts[0]) && Postfix(ts[0]) == prog;
    }
  }
}
