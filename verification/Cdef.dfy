/** The greatest common divisor of a zero-terminated array, computed in the array (lcd in rrd_graph.c). */
module Lcd {
  import opened Arith

  function Gcd(a: nat, b: nat): nat
    decreases b
  {
    if b == 0 then a else Gcd(b, a % b)
  }

  function GcdAll(s: seq<nat>): nat
    requires s != []
  {
    if |s| == 1 then s[0] else Gcd(GcdAll(s[..|s| - 1]), s[|s| - 1])
  }

  predicate Divides(d: nat, x: int) { d > 0 && x % d == 0 }

  lemma DividesMul(d: nat, q: nat)
    requires d > 0
    ensures Divides(d, Mul(d, q))
  {
    Divide(Mul(d, q), d, q, 0);
  }

  lemma DividesSum(d: nat, x: nat, y: nat)
    requires Divides(d, x)
    ensures Divides(d, y) <==> Divides(d, x + y)
  {
    hide Mul;
    Quotient(x, d);
    Quotient(y, d);
    Quotient(x + y, d);
    MulAdd(d, x / d, y / d);
    Divide(x + y, d, x / d + y / d, y % d);
  }

  lemma DividesMultiple(d: nat, x: nat, k: nat)
    requires Divides(d, x)
    ensures Divides(d, Mul(x, k))
  {
    hide Mul;
    Quotient(x, d);
    MulMul(d, x / d, k);
    DividesMul(d, Mul(x / d, k));
  }

  /** One step of Euclid keeps the common divisors. */
  lemma DividesRest(d: nat, a: nat, b: nat)
    requires b > 0 && Divides(d, b)
    ensures Divides(d, a) <==> Divides(d, a % b)
  {
    hide Mul, Divides;
    Quotient(a, b);
    DividesMultiple(d, b, a / b);
    DividesSum(d, Mul(b, a / b), a % b);
  }

  lemma {:induction false} GcdDivides(a: nat, b: nat)
    requires a > 0 || b > 0
    ensures Gcd(a, b) > 0 && Divides(Gcd(a, b), a) && Divides(Gcd(a, b), b)
    decreases b
  {
    if b > 0 {
      GcdDivides(b, a % b);
      DividesRest(Gcd(a, b), a, b);
    }
  }

  lemma {:induction false} GcdGreatest(a: nat, b: nat, d: nat)
    requires Divides(d, a) && Divides(d, b)
    ensures Divides(d, Gcd(a, b))
    decreases b
  {
    hide Divides;
    if b > 0 {
      DividesRest(d, a, b);
      GcdGreatest(b, a % b, d);
    }
  }

  lemma DividesTrans(d: nat, x: nat, y: nat)
    requires Divides(d, x) && Divides(x, y)
    ensures Divides(d, y)
  {
    Quotient(y, x);
    DividesMultiple(d, x, y / x);
  }

  /** It divides every element, and every common divisor divides it. */
  lemma {:induction false} GcdAllGreatest(s: seq<nat>)
    requires s != [] && forall i :: 0 <= i < |s| ==> s[i] > 0
    ensures GcdAll(s) > 0
    ensures forall i :: 0 <= i < |s| ==> Divides(GcdAll(s), s[i])
    ensures forall d: nat :: (forall i :: 0 <= i < |s| ==> Divides(d, s[i])) ==> Divides(d, GcdAll(s))
  {
    if |s| == 1 {
      DividesItself(s[0]);
      forall d: nat | forall i :: 0 <= i < |s| ==> Divides(d, s[i]) ensures Divides(d, GcdAll(s)) {
        assert Divides(d, s[0]);
      }
    } else {
      hide Divides;
      var front, last := s[..|s| - 1], s[|s| - 1];
      GcdAllGreatest(front);
      GcdDivides(GcdAll(front), last);
      forall i | 0 <= i < |s| ensures Divides(GcdAll(s), s[i]) {
        if i < |s| - 1 { DividesTrans(GcdAll(s), GcdAll(front), front[i]); }
      }
      forall d: nat | forall i :: 0 <= i < |s| ==> Divides(d, s[i]) ensures Divides(d, GcdAll(s)) {
        assert forall i :: 0 <= i < |front| ==> front[i] == s[i];
        GcdGreatest(GcdAll(front), last, d);
      }
    }
  }

  lemma DividesItself(x: nat)
    requires x > 0
    ensures Divides(x, x)
  {
  }

  /** `lcd`: Euclid on each element and its successor, which then takes over the result. */
  method LcdArray(num: array<nat>) returns (r: nat)
    requires num.Length >= 2 && num[num.Length - 1] == 0
    requires forall i :: 0 <= i < num.Length - 1 ==> num[i] > 0
    modifies num
    ensures r == GcdAll(old(num[..num.Length - 1])) > 0
  {
    hide GcdAll;
    ghost var n := num.Length - 1;
    ghost var steps := num[..n];
    var i := 0;
    GcdOne(steps);
    while num[i + 1] != 0
      invariant 0 <= i < n && num[i] == GcdAll(steps[..i + 1])
      invariant forall j :: i < j < n ==> num[j] == steps[j]
      invariant num[n] == 0
      decreases n - i
    {
      ghost var g := Gcd(num[i], num[i + 1]);
      var first, rest := true, 0;
      while first || rest != 0
        invariant first || num[i + 1] == rest
        invariant first ==> num[i + 1] != 0
        invariant Gcd(num[i], num[i + 1]) == g
        invariant forall j :: i + 1 < j < n ==> num[j] == steps[j]
        invariant num[n] == 0 || n == i + 1
        decreases first, num[i + 1]
      {
        rest := num[i] % num[i + 1];
        num[i] := num[i + 1];
        num[i + 1] := rest;
        first := false;
      }
      num[i + 1] := num[i];
      GcdNext(steps, i + 1);
      i := i + 1;
    }
    r := num[i];
    assert steps[..n] == steps;
    GcdAllGreatest(steps);
  }

  lemma GcdOne(s: seq<nat>)
    requires s != []
    ensures GcdAll(s[..1]) == s[0]
  {
  }

  lemma GcdNext(s: seq<nat>, i: nat)
    requires 0 < i < |s|
    ensures GcdAll(s[..i + 1]) == Gcd(GcdAll(s[..i]), s[i])
  {
    assert s[..i + 1][..i] == s[..i];
  }
}

/** Evaluating a CDEF over sources of different steps (data_calc in rrd_graph.c). */
module Cdef {
  import opened Arith
  import opened Lcd
  import opened Rpn
  import N = Numbers
  import W = Rows

  /** A data source of the graph: rows of `dsCnt` cells for the intervals start + step, ..., end, of which column `ds`
      counts. Without cells it is a VDEF, which has one value only. */
  datatype Source = Source(start: nat, end: nat, step: nat, dsCnt: nat, ds: nat, data: seq<N.Num>, vdef: N.Num)

  ghost predicate Valid(src: Source) {
    src.dsCnt > 0 ==>
      src.step > 0 && src.start <= src.end && src.end > 0 && Divides(src.step, src.start) && Divides(src.step, src.end) &&
      src.ds < src.dsCnt && |src.data| == W.Cells(src.dsCnt, (src.end - src.start) / src.step)
  }

  /** The program's sources exist, and its operators are among those modelled. */
  ghost predicate Bound(gdes: seq<Source>, prog: seq<Node>) {
    Modelled(prog) && (forall i :: 0 <= i < |gdes| ==> Valid(gdes[i])) &&
    forall i :: 0 <= i < |prog| && IsSource(prog[i]) ==> prog[i].ptr < |gdes|
  }

  predicate Used(gdes: seq<Source>, node: Node) {
    IsSource(node) && node.ptr < |gdes| && gdes[node.ptr].dsCnt > 0
  }

  // ----- one source over time

  /** The row whose interval (start + row * step, start + (row + 1) * step] contains `t`. */
  function Row(src: Source, t: nat): nat
    requires src.step > 0
  {
    if t <= src.start then 0 else (t - 1 - src.start) / src.step
  }

  lemma RowCovers(src: Source, t: nat)
    requires Valid(src) && src.dsCnt > 0 && src.start < t <= src.end
    ensures src.start + Mul(src.step, Row(src, t)) < t <= src.start + Mul(src.step, Row(src, t) + 1)
    ensures Row(src, t) < (src.end - src.start) / src.step
  {
    hide Mul;
    var x, s := t - src.start, src.step;
    Quotient(x - 1, s);
    MulNext(s, Row(src, t));
    Difference(s, src.start, src.end);
    MulOrder(s, Row(src, t), (src.end - src.start) / s);
  }

  /** The cell of the source at time t. */
  function Cell(src: Source, t: nat): int
    requires src.step > 0
  {
    src.ds + W.Cells(src.dsCnt, Row(src, t))
  }

  lemma CellInData(src: Source, t: nat)
    requires Valid(src) && src.dsCnt > 0 && src.start < t <= src.end
    ensures 0 <= Cell(src, t) < |src.data|
  {
    RowCovers(src, t);
    var rows := (src.end - src.start) / src.step;
    W.CellsAdd(src.dsCnt, Row(src, t) + 1, rows - Row(src, t) - 1);
  }

  function SourceAt(src: Source, t: nat): N.Num
    requires Valid(src) && src.dsCnt > 0 && src.start < t <= src.end
  {
    CellInData(src, t);
    src.data[Cell(src, t)]
  }

  lemma DivStep(x: nat, s: nat, g: nat)
    requires g > 0 && Divides(g, s) && s > 0 && Divides(g, x)
    ensures (x + g - 1) / s == x / s
  {
    hide Mul, Divides;
    Quotient(x, s);
    var r := x % s;
    DividesRest(g, x, s);
    RestBelow(r, s, g);
    Divide(x + g - 1, s, x / s, r + g - 1);
  }

  lemma RestBelow(r: nat, s: nat, g: nat)
    requires g > 0 && Divides(g, s) && Divides(g, r) && r < s
    ensures r + g <= s
  {
    hide Mul;
    Quotient(r, g);
    Quotient(s, g);
    MulOrder(g, r / g, s / g);
    MulOrder(g, r / g + 1, s / g);
    MulNext(g, r / g);
  }

  /** Going on by one step of the CDEF stays in the row, except at a multiple of the source's step. */
  lemma NextRow(src: Source, t: nat, g: nat)
    requires Valid(src) && src.dsCnt > 0 && Divides(g, src.step) && Divides(g, t) && t > src.start
    ensures Row(src, t + g) == Row(src, t) + (if t % src.step == 0 then 1 else 0)
  {
    hide Mul;
    var x, s := t - src.start, src.step;
    DividesTrans(g, s, src.start);
    DividesSum(g, src.start, x);
    DivStep(x, s, g);
    DividesSum(s, src.start, x);
    Quotient(x, s);
    if x % s == 0 {
      MulNext(s, x / s);
      if x / s > 0 {
        MulLessOne(s, x / s);
        Divide(x - 1, s, x / s - 1, s - 1);
      }
    } else {
      Divide(x - 1, s, x / s, x % s - 1);
    }
  }

  /** The row at which the pointer is first set, given by the distance of the starts. */
  lemma FirstRow(src: Source, start: nat, g: nat)
    requires Valid(src) && src.dsCnt > 0 && Divides(g, src.step) && Divides(g, start) && start >= src.start
    ensures Row(src, start + g) == (start - src.start) / src.step
  {
    hide Mul;
    DividesTrans(g, src.step, src.start);
    DividesSum(g, src.start, start - src.start);
    DivStep(start - src.start, src.step, g);
  }

  /** The row before exists exactly if a whole interval of the source lies before. */
  lemma PreviousRow(src: Source, t: nat)
    requires Valid(src) && src.dsCnt > 0 && t > src.start
    ensures Row(src, t) >= 1 <==> src.start + src.step < t
    ensures Row(src, t) >= 1 ==> t >= src.step && Row(src, t - src.step) == Row(src, t) - 1
  {
    hide Mul;
    var x, s := t - src.start, src.step;
    Quotient(x - 1, s);
    MulOrder(s, 1, (x - 1) / s);
    MulNext(s, 1);
    MulNext(s, (x - 1) / s);
    MulNext(s, 0);
    if Row(src, t) >= 1 {
      MulLessOne(s, (x - 1) / s);
      Divide(x - 1 - s, s, (x - 1) / s - 1, (x - 1) % s);
    }
  }

  // ----- the program over time

  /** The node with its pointer on the row for time t; a VDEF turns into its value. */
  function At(gdes: seq<Source>, node: Node, t: nat): Node
    requires IsSource(node) ==> node.ptr < |gdes| && Valid(gdes[node.ptr])
  {
    if !IsSource(node) then node else
    var src := gdes[node.ptr];
    if src.dsCnt == 0 then node.(op := OpNumber, val := src.vdef)
    else node.(data := Cell(src, t), dsCnt := src.dsCnt, step := src.step)
  }

  function ProgAt(gdes: seq<Source>, prog: seq<Node>, t: nat): (p: seq<Node>)
    requires Bound(gdes, prog)
    ensures |p| == |prog| && forall i :: 0 <= i < |p| ==> p[i] == At(gdes, prog[i], t)
  {
    seq(|prog|, i requires 0 <= i < |prog| => At(gdes, prog[i], t))
  }

  function Datas(gdes: seq<Source>): (d: seq<seq<N.Num>>)
    ensures |d| == |gdes| && forall i :: 0 <= i < |d| ==> d[i] == gdes[i].data
  {
    seq(|gdes|, i requires 0 <= i < |gdes| => gdes[i].data)
  }

  /** The range of the CDEF: from the latest start to the earliest end of its sources; and their steps. */
  function Start(gdes: seq<Source>, prog: seq<Node>): nat {
    if prog == [] then 0 else
    var rest, node := Start(gdes, prog[..|prog| - 1]), prog[|prog| - 1];
    if Used(gdes, node) && rest < gdes[node.ptr].start then gdes[node.ptr].start else rest
  }

  function End(gdes: seq<Source>, prog: seq<Node>): nat {
    if prog == [] then 0 else
    var rest, node := End(gdes, prog[..|prog| - 1]), prog[|prog| - 1];
    if Used(gdes, node) && (rest == 0 || rest > gdes[node.ptr].end) then gdes[node.ptr].end else rest
  }

  function Steps(gdes: seq<Source>, prog: seq<Node>): seq<nat> {
    if prog == [] then [] else
    var rest, node := Steps(gdes, prog[..|prog| - 1]), prog[|prog| - 1];
    if Used(gdes, node) then rest + [gdes[node.ptr].step] else rest
  }

  ghost predicate Common(gdes: seq<Source>, prog: seq<Node>, g: nat) {
    forall i :: 0 <= i < |prog| && Used(gdes, prog[i]) ==> Divides(g, gdes[prog[i].ptr].step)
  }

  lemma BoundFront(gdes: seq<Source>, prog: seq<Node>, i: nat)
    requires Bound(gdes, prog) && i <= |prog|
    ensures Bound(gdes, prog[..i])
  {
    assert forall j :: 0 <= j < i ==> prog[..i][j] == prog[j];
  }

  /** The range lies inside the range of every source, on the grid of every common divisor of the steps. */
  lemma {:induction false} Range(gdes: seq<Source>, prog: seq<Node>)
    requires Bound(gdes, prog)
    ensures forall i :: 0 <= i < |prog| && Used(gdes, prog[i]) ==>
      gdes[prog[i].ptr].start <= Start(gdes, prog) && 0 < End(gdes, prog) <= gdes[prog[i].ptr].end && Steps(gdes, prog) != []
    ensures Steps(gdes, prog) == [] <==> End(gdes, prog) == 0
    ensures forall g: nat :: g > 0 && Common(gdes, prog, g) ==> Divides(g, Start(gdes, prog)) && Divides(g, End(gdes, prog))
  {
    if prog != [] {
      var front, node := prog[..|prog| - 1], prog[|prog| - 1];
      BoundFront(gdes, prog, |prog| - 1);
      Range(gdes, front);
      forall i | 0 <= i < |prog| && Used(gdes, prog[i])
        ensures gdes[prog[i].ptr].start <= Start(gdes, prog) && 0 < End(gdes, prog) <= gdes[prog[i].ptr].end
      {
        if i < |front| { assert prog[i] == front[i]; }
      }
      forall g: nat | g > 0 && Common(gdes, prog, g) ensures Divides(g, Start(gdes, prog)) && Divides(g, End(gdes, prog)) {
        assert Common(gdes, front, g) by {
          assert forall i :: 0 <= i < |front| ==> front[i] == prog[i];
        }
        if Used(gdes, node) {
          var src := gdes[node.ptr];
          assert Divides(g, src.step);
          DividesTrans(g, src.step, src.start);
          DividesTrans(g, src.step, src.end);
        }
      }
    }
  }

  lemma {:induction false} StepsOf(gdes: seq<Source>, prog: seq<Node>, g: nat)
    requires Bound(gdes, prog)
    ensures forall i :: 0 <= i < |Steps(gdes, prog)| ==> Steps(gdes, prog)[i] > 0
    ensures (forall i :: 0 <= i < |Steps(gdes, prog)| ==> Divides(g, Steps(gdes, prog)[i])) <==> Common(gdes, prog, g)
  {
    hide Divides;
    if prog != [] {
      var front, node := prog[..|prog| - 1], prog[|prog| - 1];
      BoundFront(gdes, prog, |prog| - 1);
      StepsOf(gdes, front, g);
      assert Common(gdes, prog, g) <==> Common(gdes, front, g) && (Used(gdes, node) ==> Divides(g, gdes[node.ptr].step)) by {
        assert forall i :: 0 <= i < |front| ==> front[i] == prog[i];
      }
      var steps, rest := Steps(gdes, prog), Steps(gdes, front);
      assert forall i :: 0 <= i < |rest| ==> steps[i] == rest[i];
      if Used(gdes, node) { assert steps[|rest|] == gdes[node.ptr].step; }
    }
  }

  /** The step of the CDEF: the greatest that divides the steps of all sources. */
  function Step(gdes: seq<Source>, prog: seq<Node>): nat
    requires Steps(gdes, prog) != []
  {
    GcdAll(Steps(gdes, prog))
  }

  lemma StepIsGreatest(gdes: seq<Source>, prog: seq<Node>)
    requires Bound(gdes, prog) && Steps(gdes, prog) != []
    ensures var g := Step(gdes, prog);
            g > 0 && Common(gdes, prog, g) && Divides(g, Start(gdes, prog)) && Divides(g, End(gdes, prog)) &&
            forall d: nat :: Common(gdes, prog, d) ==> Divides(d, g)
  {
    hide Steps, Common, GcdAll, Divides, Start, End;
    var steps, g := Steps(gdes, prog), Step(gdes, prog);
    StepsOf(gdes, prog, g);
    GcdAllGreatest(steps);
    Range(gdes, prog);
    forall d: nat | Common(gdes, prog, d) ensures Divides(d, g) {
      StepsOf(gdes, prog, d);
    }
  }

  // ----- running the calculator at one time

  function ContextAt(lib: Lib, gdes: seq<Source>, t: nat, outputs: seq<N.Num>): Context {
    Context(lib, Datas(gdes), t, outputs)
  }

  /** From the second time step on, every PREV(source) finds a row before the current one. */
  ghost predicate PrevInside(gdes: seq<Source>, prog: seq<Node>, second: nat) {
    forall i :: 0 <= i < |prog| && Used(gdes, prog[i]) && prog[i].op.OpPrevOther? ==>
      gdes[prog[i].ptr].start + gdes[prog[i].ptr].step < second
  }

  /** The source of a node that is in use covers the time. */
  ghost predicate Covers(gdes: seq<Source>, prog: seq<Node>, t: nat) {
    forall i :: 0 <= i < |prog| && Used(gdes, prog[i]) ==> gdes[prog[i].ptr].start < t <= gdes[prog[i].ptr].end
  }

  lemma NodeReadableIff(ctx: Context, lib: Lib, gdes: seq<Source>, node: Node, t: nat, outputs: seq<N.Num>)
    requires ctx == ContextAt(lib, gdes, t, outputs)
    requires IsSource(node) ==> node.ptr < |gdes| && Valid(gdes[node.ptr])
    requires Used(gdes, node) ==> gdes[node.ptr].start < t <= gdes[node.ptr].end
    ensures Readable(ctx, At(gdes, node, t)) <==>
      (Used(gdes, node) && node.op.OpPrevOther? && outputs != [] ==> gdes[node.ptr].start + gdes[node.ptr].step < t)
  {
    if Used(gdes, node) {
      var src := gdes[node.ptr];
      CellInData(src, t);
      PreviousRow(src, t);
      if Row(src, t) >= 1 {
        W.CellsAdd(src.dsCnt, Row(src, t) - 1, 1);
      } else {
        assert W.Cells(src.dsCnt, 0) == 0;
      }
    }
  }

  lemma NodeKept(gdes: seq<Source>, node: Node, t: nat)
    requires IsSource(node) ==> node.ptr < |gdes| && Valid(gdes[node.ptr])
    ensures !IsVdef(At(gdes, node, t)) && ShapeOf(At(gdes, node, t).op) == ShapeOf(node.op)
  {
    hide Row, Cell;
  }

  lemma NodeReadable(ctx: Context, lib: Lib, gdes: seq<Source>, node: Node, t: nat, outputs: seq<N.Num>)
    requires ctx == ContextAt(lib, gdes, t, outputs)
    requires IsSource(node) ==> node.ptr < |gdes| && Valid(gdes[node.ptr])
    requires Used(gdes, node) ==> gdes[node.ptr].start < t <= gdes[node.ptr].end
    requires Used(gdes, node) && node.op.OpPrevOther? && outputs != [] ==> gdes[node.ptr].start + gdes[node.ptr].step < t
    ensures Readable(ctx, At(gdes, node, t)) && !IsVdef(At(gdes, node, t))
    ensures ShapeOf(At(gdes, node, t).op) == ShapeOf(node.op)
  {
    hide Readable, At, ShapeOf, IsVdef;
    NodeReadableIff(ctx, lib, gdes, node, t, outputs);
    NodeKept(gdes, node, t);
  }

  lemma {:induction false} SameDepth(gdes: seq<Source>, prog: seq<Node>, t: nat)
    requires Bound(gdes, prog)
    ensures Depth(ProgAt(gdes, prog, t)) == Depth(prog)
  {
    hide Row, Cell;
    if prog != [] {
      var front := prog[..|prog| - 1];
      BoundFront(gdes, prog, |prog| - 1);
      SameDepth(gdes, front, t);
      assert ProgAt(gdes, prog, t)[..|prog| - 1] == ProgAt(gdes, front, t);
    }
  }

  /** At a time that every source covers, the calculator reads inside the data exactly if every PREV(source) finds a row
      before the current one. */
  lemma ReadableIff(lib: Lib, gdes: seq<Source>, prog: seq<Node>, t: nat, outputs: seq<N.Num>)
    requires Bound(gdes, prog) && Covers(gdes, prog, t)
    ensures AllReadable(ContextAt(lib, gdes, t, outputs), ProgAt(gdes, prog, t)) <==> (outputs != [] ==> PrevInside(gdes, prog, t))
  {
    hide Readable, IsVdef, ShapeOf, At, Valid;
    var ctx, p := ContextAt(lib, gdes, t, outputs), ProgAt(gdes, prog, t);
    forall i | 0 <= i < |p|
      ensures Readable(ctx, p[i]) <==>
        (Used(gdes, prog[i]) && prog[i].op.OpPrevOther? && outputs != [] ==> gdes[prog[i].ptr].start + gdes[prog[i].ptr].step < t)
    {
      NodeReadableIff(ctx, lib, gdes, prog[i], t, outputs);
    }
    if outputs != [] && !PrevInside(gdes, prog, t) {
      var i :| 0 <= i < |prog| && Used(gdes, prog[i]) && prog[i].op.OpPrevOther? &&
        !(gdes[prog[i].ptr].start + gdes[prog[i].ptr].step < t);
      assert !Readable(ctx, p[i]);
    }
  }

  lemma KeptAt(gdes: seq<Source>, prog: seq<Node>, t: nat)
    requires Bound(gdes, prog)
    ensures Modelled(ProgAt(gdes, prog, t)) && NoVdef(ProgAt(gdes, prog, t))
    ensures Fixed(prog) ==> Fixed(ProgAt(gdes, prog, t))
  {
    hide IsVdef, ShapeOf, At, Valid;
    var p := ProgAt(gdes, prog, t);
    forall i | 0 <= i < |p| ensures !IsVdef(p[i]) && ShapeOf(p[i].op) == ShapeOf(prog[i].op) {
      NodeKept(gdes, prog[i], t);
    }
  }

  /** At every time of the range it is known beforehand whether the calculator reads inside the data, and, for a program
      whose operators have a fixed arity, whether it succeeds, fails or reads outside. */
  lemma ProgReady(lib: Lib, gdes: seq<Source>, prog: seq<Node>, t: nat, outputs: seq<N.Num>)
    requires Bound(gdes, prog) && Covers(gdes, prog, t)
    ensures var ctx, p := ContextAt(lib, gdes, t, outputs), ProgAt(gdes, prog, t);
            Modelled(p) && (AllReadable(ctx, p) <==> (outputs != [] ==> PrevInside(gdes, prog, t))) &&
            (Eval(ctx, p).Ok? ==> AllReadable(ctx, p)) &&
            (Fixed(prog) ==>
              (Eval(ctx, p).Ok? <==> Depth(prog) == 1 && AllReadable(ctx, p)) &&
              (Eval(ctx, p).Err? && AllReadable(ctx, p) ==> !Uncertain(Eval(ctx, p).error)) &&
              (Depth(prog) == 1 && !AllReadable(ctx, p) ==> Eval(ctx, p) == Err(Outside)))
  {
    hide Readable, IsVdef, ShapeOf, At, Depth, Valid, AllReadable, Run, Fixed, Modelled, NoVdef;
    var ctx, p := ContextAt(lib, gdes, t, outputs), ProgAt(gdes, prog, t);
    KeptAt(gdes, prog, t);
    RunReadable(ctx, p);
    ReadableIff(lib, gdes, prog, t, outputs);
    if Fixed(prog) {
      SameDepth(gdes, prog, t);
      SucceedsStatically(ctx, p);
      ReadsOutside(ctx, p);
      CountsNothing(ctx, p);
    }
  }

  /** The pointers after the calculator has run are those for the next time step. */
  lemma PointersMove(gdes: seq<Source>, prog: seq<Node>, t: nat, g: nat, i: nat)
    requires Bound(gdes, prog) && Covers(gdes, prog, t) && Common(gdes, prog, g) && Divides(g, t) && i < |prog|
    ensures IsSource(At(gdes, prog[i], t)) && At(gdes, prog[i], t).dsCnt != 0 ==> At(gdes, prog[i], t).step > 0
    ensures Moved(At(gdes, prog[i], t), t) == At(gdes, prog[i], t + g)
  {
    hide Row;
    if Used(gdes, prog[i]) {
      var src := gdes[prog[i].ptr];
      NextRow(src, t, g);
      W.CellsAdd(src.dsCnt, Row(src, t), 1);
      assert W.Cells(src.dsCnt, 1) == src.dsCnt;
    }
  }

  // ----- the evaluation

  /** `value` is an output, given those before it: the value of the program at its time, with every source on the row
      that covers this time. */
  ghost predicate IsOutput(lib: Lib, gdes: seq<Source>, prog: seq<Node>, start: nat, step: nat, before: seq<N.Num>, value: N.Num)
    requires Bound(gdes, prog)
  {
    var t := start + Mul(step, |before| + 1);
    var ctx, p := ContextAt(lib, gdes, t, before), ProgAt(gdes, prog, t);
    AllReadable(ctx, p) && Modelled(p) && Eval(ctx, p) == Ok(value)
  }

  ghost predicate AllOutputs(lib: Lib, gdes: seq<Source>, prog: seq<Node>, start: nat, step: nat, data: seq<N.Num>)
    requires Bound(gdes, prog)
  {
    forall k :: 0 <= k < |data| ==> IsOutput(lib, gdes, prog, start, step, data[..k], data[k])
  }

  /** After `before`, the outputs of the time steps in front, the calculator ends with this error. */
  ghost predicate FailsAfter(lib: Lib, gdes: seq<Source>, prog: seq<Node>, start: nat, end: nat, step: nat, before: seq<N.Num>,
                             error: Error)
    requires Bound(gdes, prog)
  {
    var t := start + Mul(step, |before| + 1);
    var p := ProgAt(gdes, prog, t);
    t <= end && AllOutputs(lib, gdes, prog, start, step, before) &&
    Modelled(p) && Eval(ContextAt(lib, gdes, t, before), p) == Err(error)
  }

  /** An error that C does not report: what happens then is not defined. */
  predicate Uncertain(error: Error) { error.Outside? || error.NoCount? }

  /** `NoMemory`: the buffer for the outputs cannot be had. `RpnError`: the calculator reports an error; `Undefined`: it
      does what C does not define; both with the outputs of the time steps in front. */
  datatype CdefResult =
    | Evaluated(start: nat, end: nat, step: nat, data: seq<N.Num>)
    | NoSources
    | NoMemory
    | RpnError(error: Error, before: seq<N.Num>)
    | Undefined(error: Error, before: seq<N.Num>)

  /** The size asked for: the difference of the times turns into an unsigned word. */
  function BufferSize(start: nat, end: nat, step: nat): nat
    requires step > 0
  {
    ((end - start) % WORD / step * 8) % WORD
  }

  const WORD: nat := 0x1_0000_0000_0000_0000

  /** The first pass over the program. */
  method Prepare(gdes: seq<Source>, rpnp: array<Node>) returns (start: nat, end: nat, steps: seq<nat>)
    requires Bound(gdes, rpnp[..])
    modifies rpnp
    ensures forall i :: 0 <= i < rpnp.Length ==> rpnp[i] == At(gdes, old(rpnp[i]), 0)
    ensures start == old(Start(gdes, rpnp[..])) && end == old(End(gdes, rpnp[..])) && steps == old(Steps(gdes, rpnp[..]))
  {
    hide Row, Start, End, Steps, Valid, Cell;
    ghost var prog := rpnp[..];
    start, end, steps := 0, 0, [];
    var rpi := 0;
    PreparedNone(gdes, prog);
    while rpi < rpnp.Length
      invariant 0 <= rpi <= rpnp.Length
      invariant forall i :: 0 <= i < rpi ==> rpnp[i] == At(gdes, prog[i], 0)
      invariant forall i :: rpi <= i < rpnp.Length ==> rpnp[i] == prog[i]
      invariant start == Start(gdes, prog[..rpi]) && end == End(gdes, prog[..rpi]) && steps == Steps(gdes, prog[..rpi])
    {
      PreparedNext(gdes, prog, rpi);
      var node := rpnp[rpi];
      if node.op.OpVariable? || node.op.OpPrevOther? {
        var src := gdes[node.ptr];
        if src.dsCnt == 0 {
          rpnp[rpi] := node.(val := src.vdef, op := OpNumber);
        } else {
          steps := steps + [src.step];
          if start < src.start { start := src.start; }
          if end == 0 || end > src.end { end := src.end; }
          RowZero(src);
          rpnp[rpi] := node.(data := src.ds, step := src.step, dsCnt := src.dsCnt);
        }
      }
      rpi := rpi + 1;
    }
    assert prog[..rpi] == prog;
  }

  lemma PreparedNone(gdes: seq<Source>, prog: seq<Node>)
    ensures Start(gdes, prog[..0]) == 0 && End(gdes, prog[..0]) == 0 && Steps(gdes, prog[..0]) == []
  {
  }

  lemma PreparedNext(gdes: seq<Source>, prog: seq<Node>, i: nat)
    requires Bound(gdes, prog) && i < |prog|
    ensures IsSource(prog[i]) ==> prog[i].ptr < |gdes| && (gdes[prog[i].ptr].dsCnt > 0 ==> gdes[prog[i].ptr].step > 0)
    ensures var s, e, p, q := Start(gdes, prog[..i]), End(gdes, prog[..i]), prog[..i + 1], Steps(gdes, prog[..i]);
            if Used(gdes, prog[i]) then
              var src := gdes[prog[i].ptr];
              Start(gdes, p) == (if s < src.start then src.start else s) &&
              End(gdes, p) == (if e == 0 || e > src.end then src.end else e) && Steps(gdes, p) == q + [src.step]
            else Start(gdes, p) == s && End(gdes, p) == e && Steps(gdes, p) == q
  {
    assert prog[..i + 1][..i] == prog[..i];
  }

  lemma RowZero(src: Source)
    requires src.step > 0
    ensures Cell(src, 0) == src.ds
  {
  }

  /** The second pass moves the pointers to the common start. */
  method MovePointers(gdes: seq<Source>, rpnp: array<Node>, start: nat, ghost prog: seq<Node>, ghost g: nat)
    requires Bound(gdes, prog) && |prog| == rpnp.Length && Common(gdes, prog, g) && Divides(g, start)
    requires forall i :: 0 <= i < |prog| ==> rpnp[i] == At(gdes, prog[i], 0)
    requires forall i :: 0 <= i < |prog| && Used(gdes, prog[i]) ==> gdes[prog[i].ptr].start <= start
    modifies rpnp
    ensures forall i :: 0 <= i < |prog| ==> rpnp[i] == At(gdes, prog[i], start + g)
  {
    hide Row, Divides;
    var rpi := 0;
    while rpi < rpnp.Length
      invariant 0 <= rpi <= rpnp.Length
      invariant forall i :: 0 <= i < rpi ==> rpnp[i] == At(gdes, prog[i], start + g)
      invariant forall i :: rpi <= i < rpnp.Length ==> rpnp[i] == At(gdes, prog[i], 0)
    {
      var node := rpnp[rpi];
      if node.op.OpVariable? || node.op.OpPrevOther? {
        var src := gdes[node.ptr];
        var diff := start - src.start;
        FirstRow(src, start, g);
        RowZero(src);
        if diff > 0 {
          rpnp[rpi] := node.(data := node.data + W.Cells(src.dsCnt, diff / src.step));
        } else {
          AtStart(src, g);
        }
      }
      rpi := rpi + 1;
    }
  }

  lemma AtStart(src: Source, g: nat)
    requires Valid(src) && src.dsCnt > 0 && Divides(g, src.step)
    ensures Cell(src, src.start + g) == src.ds
  {
    hide Row, Divides;
    DividesTrans(g, src.step, src.start);
    FirstRow(src, src.start, g);
  }

  /** Times of the outputs lie in the range of every source. */
  lemma TimeInRange(gdes: seq<Source>, prog: seq<Node>, t: nat)
    requires Bound(gdes, prog) && Start(gdes, prog) < t <= End(gdes, prog)
    ensures Covers(gdes, prog, t)
  {
    hide Start, End, Steps;
    Range(gdes, prog);
  }

  /** Number of rows of the result. */
  function Rows(start: nat, end: nat, step: nat): nat
    requires step > 0
  {
    if end < start then 0 else (end - start) / step
  }

  lemma RowsLeft(start: nat, end: nat, step: nat, k: nat)
    requires step > 0 && Divides(step, start) && Divides(step, end)
    ensures k < Rows(start, end, step) <==> start + Mul(step, k + 1) <= end
    ensures Divides(step, start + Mul(step, k + 1)) && Mul(step, k + 1) == Mul(step, k) + step
  {
    hide Mul;
    if start <= end {
      Difference(step, start, end);
      MulOrder(step, k + 1, (end - start) / step);
    }
    DividesMul(step, k + 1);
    DividesSum(step, start, Mul(step, k + 1));
    MulNext(step, k);
  }

  lemma LaterStillInside(gdes: seq<Source>, prog: seq<Node>, second: nat, t: nat)
    requires PrevInside(gdes, prog, second) && second <= t
    ensures PrevInside(gdes, prog, t)
  {
  }

  lemma NextOutput(lib: Lib, gdes: seq<Source>, prog: seq<Node>, start: nat, step: nat, data: seq<N.Num>, value: N.Num)
    requires Bound(gdes, prog) && AllOutputs(lib, gdes, prog, start, step, data)
    requires IsOutput(lib, gdes, prog, start, step, data, value)
    ensures AllOutputs(lib, gdes, prog, start, step, data + [value])
  {
    hide IsOutput, Bound;
    forall k | 0 <= k < |data| + 1 ensures IsOutput(lib, gdes, prog, start, step, (data + [value])[..k], (data + [value])[k]) {
      assert (data + [value])[..k] == data[..k];
      if k == |data| { assert data[..k] == data; }
    }
  }

  /** Every PREV(source) is defined: its source has a row before the one for the second time step. */
  ghost predicate PrevDefined(gdes: seq<Source>, prog: seq<Node>) {
    Steps(gdes, prog) != [] && Start(gdes, prog) + 2 * Step(gdes, prog) <= End(gdes, prog) ==>
      PrevInside(gdes, prog, Start(gdes, prog) + 2 * Step(gdes, prog))
  }

  /** What one time step of the loop meets. */
  lemma StepReady(lib: Lib, gdes: seq<Source>, prog: seq<Node>, g: nat, now: nat, before: seq<N.Num>)
    requires Bound(gdes, prog) && Steps(gdes, prog) != [] && g == Step(gdes, prog)
    requires now == Start(gdes, prog) + Mul(g, |before| + 1) <= End(gdes, prog)
    ensures var ctx, p := ContextAt(lib, gdes, now, before), ProgAt(gdes, prog, now);
            Modelled(p) &&
            (before == [] || PrevDefined(gdes, prog) ==> AllReadable(ctx, p)) &&
            (|before| == 1 && AllReadable(ctx, p) ==> PrevDefined(gdes, prog)) &&
            (Eval(ctx, p).Ok? ==> AllReadable(ctx, p)) &&
            (Fixed(prog) ==>
              (Eval(ctx, p).Ok? <==> Depth(prog) == 1 && AllReadable(ctx, p)) &&
              (Eval(ctx, p).Err? && AllReadable(ctx, p) ==> !Uncertain(Eval(ctx, p).error)) &&
              (Depth(prog) == 1 && !AllReadable(ctx, p) ==> Eval(ctx, p) == Err(Outside)))
    ensures |before| == 1 ==> now == Start(gdes, prog) + 2 * g
    ensures Covers(gdes, prog, now) && Common(gdes, prog, g) && Divides(g, now)
  {
    hide Start, End, Steps, Step, Common, Covers, Divides, Depth, AllReadable, Fixed, Modelled, Eval, PrevInside, Mul, Bound, ProgAt;
    StepIsGreatest(gdes, prog);
    RowsLeft(Start(gdes, prog), End(gdes, prog), g, |before|);
    TimeInRange(gdes, prog, now);
    if before != [] {
      MulOrder(g, 2, |before| + 1);
      MulNext(g, 1);
      MulNext(g, 0);
      if PrevDefined(gdes, prog) {
        LaterStillInside(gdes, prog, Start(gdes, prog) + 2 * g, now);
      }
    }
    ProgReady(lib, gdes, prog, now, before);
  }

  /** At the second time step, PREV(source) reads inside the data if and only if its source has a row before the one
      for this time: the whole family of sources for which PREV is not defined. */
  lemma PrevReadable(lib: Lib, gdes: seq<Source>, prog: seq<Node>, outputs: seq<N.Num>)
    requires Bound(gdes, prog) && Steps(gdes, prog) != [] && outputs != []
    requires Start(gdes, prog) + 2 * Step(gdes, prog) <= End(gdes, prog)
    ensures var t := Start(gdes, prog) + 2 * Step(gdes, prog);
            AllReadable(ContextAt(lib, gdes, t, outputs), ProgAt(gdes, prog, t)) <==> PrevDefined(gdes, prog)
  {
    hide Start, End, Steps, Step, Common, Covers, Divides, AllReadable, PrevInside, Bound, ProgAt;
    var t := Start(gdes, prog) + 2 * Step(gdes, prog);
    StepIsGreatest(gdes, prog);
    TimeInRange(gdes, prog, t);
    ReadableIff(lib, gdes, prog, t, outputs);
  }

  /** The allocation of the buffer and the loop over the time steps. */
  method Evaluate(lib: Lib, malloc: nat -> bool, gdes: seq<Source>, rpnp: array<Node>, stack: RpnStack, start: nat, end: nat,
                  step: nat, ghost prog: seq<Node>)
    returns (result: CdefResult)
    requires Bound(gdes, prog) && |prog| == rpnp.Length && Steps(gdes, prog) != []
    requires start == Start(gdes, prog) && end == End(gdes, prog) && step == Step(gdes, prog)
    requires forall i :: 0 <= i < |prog| ==> rpnp[i] == At(gdes, prog[i], start + step)
    modifies rpnp, stack, stack.s
    ensures step > 0 && !result.NoSources?
    ensures result.NoMemory? <==> !malloc(BufferSize(start, end, step))
    ensures result.Evaluated? ==>
      result.start == start && result.end == end && result.step == step && |result.data| == Rows(start, end, step) &&
      AllOutputs(lib, gdes, prog, start, step, result.data)
    ensures result.RpnError? || result.Undefined? ==>
      FailsAfter(lib, gdes, prog, start, end, step, result.before, result.error) &&
      (result.Undefined? <==> Uncertain(result.error))
    ensures Fixed(prog) && !result.NoMemory? ==>
      (result.RpnError? <==> start < end && Depth(prog) != 1) &&
      (result.Undefined? <==> start < end && Depth(prog) == 1 && !PrevDefined(gdes, prog))
  {
    hide Start, End, Steps, Step, Common, Covers, Divides, Depth, AllReadable, Fixed, Modelled, Eval, PrevDefined, Mul, Rows, At,
         AllOutputs, BufferSize;
    PrevNever(gdes, prog);
    StepIsGreatest(gdes, prog);
    if !malloc(BufferSize(start, end, step)) {
      return NoMemory;
    }
    var output := new N.Num[Rows(start, end, step)];
    var now := start + step;
    var dataidx := -1;
    RowsLeft(start, end, step, 0);
    MulNext(step, 0);
    NoOutputs(lib, gdes, prog, start, step);
    if start < end { RestBelow(start, end, step); }
    while now <= end
      invariant -1 <= dataidx < output.Length && now == start + Mul(step, dataidx + 2)
      invariant stack.s != output && (stack.s == old(stack.s) || fresh(stack.s))
      invariant forall i :: 0 <= i < |prog| ==> rpnp[i] == At(gdes, prog[i], now)
      invariant AllOutputs(lib, gdes, prog, start, step, output[..dataidx + 1])
      invariant Fixed(prog) && dataidx >= 0 ==> Depth(prog) == 1
      invariant Fixed(prog) && dataidx >= 1 ==> PrevDefined(gdes, prog)
      decreases end + 1 - now
    {
      dataidx := dataidx + 1;
      ghost var before := output[..dataidx];
      RowsLeft(start, end, step, dataidx);
      RowsLeft(start, end, step, dataidx + 1);
      StepReady(lib, gdes, prog, step, now, before);
      assert rpnp[..] == ProgAt(gdes, prog, now);
      var r := stack.Calc(lib, Datas(gdes), rpnp, now, output, dataidx);
      if r.Err? {
        return if Uncertain(r.error) then Undefined(r.error, output[..dataidx]) else RpnError(r.error, output[..dataidx]);
      }
      NextOutput(lib, gdes, prog, start, step, before, r.value);
      assert output[..dataidx + 1] == before + [r.value];
      MoveAll(gdes, prog, now, step);
      now := now + step;
    }
    RowsLeft(start, end, step, dataidx + 1);
    assert output[..dataidx + 1] == output[..];
    result := Evaluated(start, end, step, output[..]);
  }

  lemma PrevNever(gdes: seq<Source>, prog: seq<Node>)
    requires Steps(gdes, prog) != []
    ensures !PrevDefined(gdes, prog) ==> Start(gdes, prog) + 2 * Step(gdes, prog) <= End(gdes, prog)
  {
  }

  lemma NoOutputs(lib: Lib, gdes: seq<Source>, prog: seq<Node>, start: nat, step: nat)
    requires Bound(gdes, prog)
    ensures AllOutputs(lib, gdes, prog, start, step, [])
  {
  }

  lemma MoveAll(gdes: seq<Source>, prog: seq<Node>, t: nat, g: nat)
    requires Bound(gdes, prog) && Covers(gdes, prog, t) && Common(gdes, prog, g) && Divides(g, t)
    ensures forall i :: 0 <= i < |prog| ==>
      (IsSource(At(gdes, prog[i], t)) && At(gdes, prog[i], t).dsCnt != 0 ==> At(gdes, prog[i], t).step > 0) &&
      Moved(At(gdes, prog[i], t), t) == At(gdes, prog[i], t + g)
  {
    hide At, Moved, Divides, Covers, Common;
    forall i | 0 <= i < |prog|
      ensures (IsSource(At(gdes, prog[i], t)) && At(gdes, prog[i], t).dsCnt != 0 ==> At(gdes, prog[i], t).step > 0) &&
              Moved(At(gdes, prog[i], t), t) == At(gdes, prog[i], t + g)
    {
      PointersMove(gdes, prog, t, g, i);
    }
  }

  /** The CDEF branch of `data_calc`, with all its outcomes. `malloc` says for which sizes there is memory. */
  method DataCalc(lib: Lib, malloc: nat -> bool, gdes: seq<Source>, rpnp: array<Node>, stack: RpnStack)
    returns (result: CdefResult)
    requires Bound(gdes, rpnp[..])
    modifies rpnp, stack, stack.s
    ensures result.NoSources? <==> old(Steps(gdes, rpnp[..])) == []
    ensures result.NoMemory? <==> old(Starved(malloc, gdes, rpnp[..]))
    ensures result.Evaluated? ==> old(IsCdef(lib, gdes, rpnp[..], result))
    ensures result.RpnError? || result.Undefined? ==> old(IsFailure(lib, gdes, rpnp[..], result))
    ensures old(Fixed(rpnp[..])) && !result.NoMemory? ==>
      (result.RpnError? <==> old(Fails(gdes, rpnp[..]))) &&
      (result.Undefined? <==> old(Runs(gdes, rpnp[..]) && !PrevDefined(gdes, rpnp[..])))
  {
    hide Start, End, Steps, Step, Common, Covers, Divides, Depth, AllReadable, Fixed, Modelled, Eval, PrevDefined, At, Rows, Mul,
         AllOutputs, GcdAll, BufferSize, FailsAfter;
    ghost var prog := rpnp[..];
    var start, end, steps := Prepare(gdes, rpnp);
    if steps == [] {
      return NoSources;
    }
    StepIsGreatest(gdes, prog);
    StartCovers(gdes, prog);
    MovePointers(gdes, rpnp, start, prog, Step(gdes, prog));
    var num := new nat[|steps| + 1](i => if 0 <= i < |steps| then steps[i] else 0);
    StepsOf(gdes, prog, 1);
    assert num[..|steps|] == steps;
    StepIs(gdes, prog);
    var step := LcdArray(num);
    result := Evaluate(lib, malloc, gdes, rpnp, stack, start, end, step, prog);
  }

  lemma StepIs(gdes: seq<Source>, prog: seq<Node>)
    requires Steps(gdes, prog) != []
    ensures Step(gdes, prog) == GcdAll(Steps(gdes, prog))
  {
  }

  lemma StartCovers(gdes: seq<Source>, prog: seq<Node>)
    requires Bound(gdes, prog)
    ensures forall i :: 0 <= i < |prog| && Used(gdes, prog[i]) ==> gdes[prog[i].ptr].start <= Start(gdes, prog)
  {
    hide Start, End, Steps;
    Range(gdes, prog);
  }

  /** There is something to calculate, and the program leaves exactly one value. */
  ghost predicate Runs(gdes: seq<Source>, prog: seq<Node>) {
    Steps(gdes, prog) != [] && Start(gdes, prog) < End(gdes, prog) && Depth(prog) == 1
  }

  /** There is something to calculate, and the program does not leave exactly one value. */
  ghost predicate Fails(gdes: seq<Source>, prog: seq<Node>) {
    Steps(gdes, prog) != [] && Start(gdes, prog) < End(gdes, prog) && Depth(prog) != 1
  }

  /** There is something to calculate, and no memory for it. */
  ghost predicate Starved(malloc: nat -> bool, gdes: seq<Source>, prog: seq<Node>) {
    Steps(gdes, prog) != [] && Step(gdes, prog) > 0 && !malloc(BufferSize(Start(gdes, prog), End(gdes, prog), Step(gdes, prog)))
  }

  /** The calculator has failed at the first time step at which it does. */
  ghost predicate IsFailure(lib: Lib, gdes: seq<Source>, prog: seq<Node>, r: CdefResult)
    requires Bound(gdes, prog)
  {
    (r.RpnError? || r.Undefined?) && Steps(gdes, prog) != [] && (r.Undefined? <==> Uncertain(r.error)) &&
    FailsAfter(lib, gdes, prog, Start(gdes, prog), End(gdes, prog), Step(gdes, prog), r.before, r.error)
  }

  ghost predicate IsCdef(lib: Lib, gdes: seq<Source>, prog: seq<Node>, r: CdefResult)
    requires Bound(gdes, prog)
  {
    r.Evaluated? && Steps(gdes, prog) != [] &&
    r.start == Start(gdes, prog) && r.end == End(gdes, prog) && r.step == Step(gdes, prog) > 0 &&
    |r.data| == Rows(r.start, r.end, r.step) && AllOutputs(lib, gdes, prog, r.start, r.step, r.data)
  }

  // ----- what the outputs mean

  /** What an operand is at time t: a source stands for its value then, PREV(source) for its value one source step before,
      and a VDEF for its one value. */
  function OperandAt(lib: Lib, gdes: seq<Source>, node: Node, t: nat, before: seq<N.Num>): N.Num
    requires ShapeOf(node.op).Push? && (IsSource(node) ==> node.ptr < |gdes| && Valid(gdes[node.ptr]))
    requires Used(gdes, node) ==> gdes[node.ptr].start < t <= gdes[node.ptr].end
    requires Used(gdes, node) && node.op.OpPrevOther? && before != [] ==> gdes[node.ptr].start + gdes[node.ptr].step < t
  {
    if !IsSource(node) then Operand(ContextAt(lib, gdes, t, before), node)
    else if gdes[node.ptr].dsCnt == 0 then gdes[node.ptr].vdef
    else if node.op.OpVariable? then SourceAt(gdes[node.ptr], t)
    else if before == [] then N.NaN
    else SourceAt(gdes[node.ptr], t - gdes[node.ptr].step)
  }

  lemma OperandMeaning(ctx: Context, lib: Lib, gdes: seq<Source>, node: Node, t: nat, before: seq<N.Num>)
    requires ctx == ContextAt(lib, gdes, t, before)
    requires ShapeOf(node.op).Push? && (IsSource(node) ==> node.ptr < |gdes| && Valid(gdes[node.ptr]))
    requires Used(gdes, node) ==> gdes[node.ptr].start < t <= gdes[node.ptr].end
    requires Used(gdes, node) && node.op.OpPrevOther? && before != [] ==> gdes[node.ptr].start + gdes[node.ptr].step < t
    ensures var n := At(gdes, node, t);
            ShapeOf(n.op).Push? && !IsVdef(n) && Readable(ctx, n) && Operand(ctx, n) == OperandAt(lib, gdes, node, t, before)
  {
    hide Row;
    NodeReadable(ctx, lib, gdes, node, t, before);
    if Used(gdes, node) && node.op.OpPrevOther? && before != [] {
      var src := gdes[node.ptr];
      PreviousRow(src, t);
      CellInData(src, t - src.step);
      W.CellsAdd(src.dsCnt, Row(src, t) - 1, 1);
      assert W.Cells(src.dsCnt, 1) == src.dsCnt;
    }
  }

  /** The tree of a CDEF whose operands all have a value at time t. */
  ghost predicate Evaluable(gdes: seq<Source>, e: Expr, t: nat, before: seq<N.Num>) {
    match e
    case Leaf(n) =>
      ShapeOf(n.op).Push? && (IsSource(n) ==> n.ptr < |gdes| && Valid(gdes[n.ptr])) &&
      (Used(gdes, n) ==> gdes[n.ptr].start < t <= gdes[n.ptr].end) &&
      (Used(gdes, n) && n.op.OpPrevOther? && before != [] ==> gdes[n.ptr].start + gdes[n.ptr].step < t)
    case Un(n, a) => ShapeOf(n.op).Unary? && Evaluable(gdes, a, t, before)
    case Bin(n, a, b) => ShapeOf(n.op).Binary? && Evaluable(gdes, a, t, before) && Evaluable(gdes, b, t, before)
    case Tri(n, a, b, c) =>
      ShapeOf(n.op).Ternary? && Evaluable(gdes, a, t, before) && Evaluable(gdes, b, t, before) && Evaluable(gdes, c, t, before)
  }

  /** The value of a tree over the sources at time t. */
  function ValueAt(lib: Lib, gdes: seq<Source>, e: Expr, t: nat, before: seq<N.Num>): N.Num
    requires Evaluable(gdes, e, t, before)
  {
    match e
    case Leaf(n) => OperandAt(lib, gdes, n, t, before)
    case Un(n, a) => Apply1(lib, n.op, ValueAt(lib, gdes, a, t, before))
    case Bin(n, a, b) => Apply2(lib, n.op, ValueAt(lib, gdes, a, t, before), ValueAt(lib, gdes, b, t, before))
    case Tri(n, a, b, c) =>
      Apply3(n.op, ValueAt(lib, gdes, a, t, before), ValueAt(lib, gdes, b, t, before), ValueAt(lib, gdes, c, t, before))
  }

  /** The tree with the pointers of its sources set for time t. */
  function TreeAt(gdes: seq<Source>, e: Expr, t: nat, before: seq<N.Num>): Expr
    requires Evaluable(gdes, e, t, before)
  {
    match e
    case Leaf(n) => Leaf(At(gdes, n, t))
    case Un(n, a) => Un(n, TreeAt(gdes, a, t, before))
    case Bin(n, a, b) => Bin(n, TreeAt(gdes, a, t, before), TreeAt(gdes, b, t, before))
    case Tri(n, a, b, c) => Tri(n, TreeAt(gdes, a, t, before), TreeAt(gdes, b, t, before), TreeAt(gdes, c, t, before))
  }

  lemma {:induction false} TreeMeaning(ctx: Context, lib: Lib, gdes: seq<Source>, e: Expr, t: nat, before: seq<N.Num>)
    requires ctx == ContextAt(lib, gdes, t, before) && Evaluable(gdes, e, t, before)
    ensures WellFormed(ctx, TreeAt(gdes, e, t, before))
    ensures Value(ctx, TreeAt(gdes, e, t, before)) == ValueAt(lib, gdes, e, t, before)
  {
    hide Apply1, Apply2, Apply3, ShapeOf, At, OperandAt, Operand, Used, Valid;
    match e
    case Leaf(n) =>
      OperandMeaning(ctx, lib, gdes, n, t, before);
    case Un(n, a) =>
      TreeMeaning(ctx, lib, gdes, a, t, before);
    case Bin(n, a, b) =>
      TreeMeaning(ctx, lib, gdes, a, t, before);
      TreeMeaning(ctx, lib, gdes, b, t, before);
    case Tri(n, a, b, c) =>
      TreeMeaning(ctx, lib, gdes, a, t, before);
      TreeMeaning(ctx, lib, gdes, b, t, before);
      TreeMeaning(ctx, lib, gdes, c, t, before);
  }

  /** Every node of the program as it stands at time t. */
  ghost predicate SetFor(gdes: seq<Source>, prog: seq<Node>, p: seq<Node>, t: nat) {
    |p| == |prog| &&
    forall i :: 0 <= i < |prog| ==>
      (IsSource(prog[i]) ==> prog[i].ptr < |gdes| && Valid(gdes[prog[i].ptr])) && p[i] == At(gdes, prog[i], t)
  }

  lemma SetForJoin(gdes: seq<Source>, a: seq<Node>, p: seq<Node>, b: seq<Node>, q: seq<Node>, t: nat)
    requires SetFor(gdes, a, p, t) && SetFor(gdes, b, q, t)
    ensures SetFor(gdes, a + b, p + q, t)
  {
    hide At, Valid;
  }

  lemma SetForNode(gdes: seq<Source>, n: Node, t: nat)
    requires IsSource(n) ==> n.ptr < |gdes| && Valid(gdes[n.ptr])
    ensures SetFor(gdes, [n], [At(gdes, n, t)], t)
  {
  }

  lemma {:induction false} TreePostfix(gdes: seq<Source>, e: Expr, t: nat, before: seq<N.Num>)
    requires Evaluable(gdes, e, t, before)
    ensures SetFor(gdes, Postfix(e), Postfix(TreeAt(gdes, e, t, before)), t)
  {
    hide SetFor, Valid, Used;
    match e
    case Leaf(n) =>
      SetForNode(gdes, n, t);
    case Un(n, a) =>
      TreePostfix(gdes, a, t, before);
      SetForNode(gdes, n, t);
      SetForJoin(gdes, Postfix(a), Postfix(TreeAt(gdes, a, t, before)), [n], [n], t);
    case Bin(n, a, b) =>
      var p, q := Postfix(TreeAt(gdes, a, t, before)), Postfix(TreeAt(gdes, b, t, before));
      TreePostfix(gdes, a, t, before);
      TreePostfix(gdes, b, t, before);
      SetForNode(gdes, n, t);
      SetForJoin(gdes, Postfix(a), p, Postfix(b), q, t);
      SetForJoin(gdes, Postfix(a) + Postfix(b), p + q, [n], [n], t);
    case Tri(n, a, b, c) =>
      var p, q := Postfix(TreeAt(gdes, a, t, before)), Postfix(TreeAt(gdes, b, t, before));
      var r := Postfix(TreeAt(gdes, c, t, before));
      TreePostfix(gdes, a, t, before);
      TreePostfix(gdes, b, t, before);
      TreePostfix(gdes, c, t, before);
      SetForNode(gdes, n, t);
      SetForJoin(gdes, Postfix(a), p, Postfix(b), q, t);
      SetForJoin(gdes, Postfix(a) + Postfix(b), p + q, Postfix(c), r, t);
      SetForJoin(gdes, Postfix(a) + Postfix(b) + Postfix(c), p + q + r, [n], [n], t);
  }

  /** The output of a CDEF that was written as a tree is, at every time step, the value of the tree over what the sources
      are at that time. */
  lemma OutputMeaning(lib: Lib, gdes: seq<Source>, e: Expr, start: nat, step: nat, before: seq<N.Num>, value: N.Num)
    requires Bound(gdes, Postfix(e)) && IsOutput(lib, gdes, Postfix(e), start, step, before, value)
    requires Evaluable(gdes, e, start + Mul(step, |before| + 1), before)
    ensures value == ValueAt(lib, gdes, e, start + Mul(step, |before| + 1), before)
  {
    hide Evaluable, TreeAt, ValueAt, WellFormed, Value, Eval, Postfix, At, Mul, Bound;
    var t := start + Mul(step, |before| + 1);
    var ctx := ContextAt(lib, gdes, t, before);
    TreeMeaning(ctx, lib, gdes, e, t, before);
    TreePostfix(gdes, e, t, before);
    assert ProgAt(gdes, Postfix(e), t) == Postfix(TreeAt(gdes, e, t, before));
    EvalPostfix(ctx, TreeAt(gdes, e, t, before));
  }

  /** A CDEF can in turn be a source: it lies on the grid of its own step. */
  lemma ResultIsSource(lib: Lib, gdes: seq<Source>, prog: seq<Node>, r: CdefResult, vdef: N.Num)
    requires Bound(gdes, prog) && IsCdef(lib, gdes, prog, r) && r.start <= r.end
    ensures Valid(Source(r.start, r.end, r.step, 1, 0, r.data, vdef))
  {
    hide AllOutputs, Start, End, Steps, Step, Common;
    StepIsGreatest(gdes, prog);
    Range(gdes, prog);
    OneCellRows((r.end - r.start) / r.step);
  }

  lemma {:induction false} OneCellRows(rows: nat)
    ensures W.Cells(1, rows) == rows
  {
    if rows > 0 { OneCellRows(rows - 1); }
  }

  function CoarseAndFine(x: N.Num): seq<Source> {
    [Source(0, 3, 3, 1, 0, [x], x), Source(0, 3, 1, 1, 0, [x, x, x], x)]
  }

  function PrevPlusFine(x: N.Num): seq<Node> {
    [Node(OpPrevOther, x, 0, 0, 1, 3), Node(OpVariable, x, 1, 0, 1, 1), Node(OpAdd, x, 0, 0, 0, 0)]
  }

  lemma CoarseRange(x: N.Num)
    ensures var gdes, prog := CoarseAndFine(x), PrevPlusFine(x);
            Steps(gdes, prog) == [3, 1] && Start(gdes, prog) == 0 && End(gdes, prog) == 3 && Depth(prog) == 1
  {
    var gdes := CoarseAndFine(x);
    var a, b, c := Node(OpPrevOther, x, 0, 0, 1, 3), Node(OpVariable, x, 1, 0, 1, 1), Node(OpAdd, x, 0, 0, 0, 0);
    assert [a, b, c][..2] == [a, b] && [a, b][..1] == [a] && [a][..0] == [];
    assert Steps(gdes, []) == [] && Start(gdes, []) == 0 && End(gdes, []) == 0 && Depth([]) == 0;
    assert Used(gdes, a) && Used(gdes, b) && !Used(gdes, c);
    assert Steps(gdes, [a]) == [3] && Start(gdes, [a]) == 0 && End(gdes, [a]) == 3 && Depth([a]) == 1;
    assert Steps(gdes, [a, b]) == [3, 1] && Start(gdes, [a, b]) == 0 && End(gdes, [a, b]) == 3 && Depth([a, b]) == 2;
  }

  /** PREV of a source with rows of 3 seconds beside rows of 1 second from the same start: the second time step would read
      in front of the data. */
  lemma PrevOfCoarseSource(x: N.Num)
    ensures var gdes, prog := CoarseAndFine(x), PrevPlusFine(x);
            Bound(gdes, prog) && Runs(gdes, prog) && !PrevDefined(gdes, prog) && Cell(gdes[0], 2) - gdes[0].dsCnt < 0
  {
    hide Steps, Start, End, Depth, Bound, GcdAll, Gcd, Cell, Row;
    CoarseRange(x);
    CoarseBound(x);
    CoarseStep();
    assert Used(CoarseAndFine(x), PrevPlusFine(x)[0]);
  }

  lemma CoarseStep()
    ensures GcdAll([3, 1]) == 1
  {
    assert [3, 1][..1] == [3];
    assert GcdAll([3]) == 3 && GcdAll([3, 1]) == Gcd(3, 1);
    assert Gcd(3, 1) == Gcd(1, 0) == 1;
  }

  lemma CoarseValid(x: N.Num)
    ensures Valid(CoarseAndFine(x)[0]) && Valid(CoarseAndFine(x)[1])
  {
    OneCellRows(1);
    OneCellRows(3);
    hide W.Cells;
  }

  lemma CoarseBound(x: N.Num)
    ensures Bound(CoarseAndFine(x), PrevPlusFine(x))
    ensures Cell(CoarseAndFine(x)[0], 2) - CoarseAndFine(x)[0].dsCnt < 0
  {
    CoarseValid(x);
    hide Valid;
    FirstCell(CoarseAndFine(x)[0]);
  }

  lemma FirstCell(src: Source)
    requires src.step == 3 && src.start == 0 && src.ds == 0
    ensures Cell(src, 2) == 0
  {
  }
}
