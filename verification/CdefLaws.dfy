/** What a CDEF computes over its time steps: counters, times, outputs before, running totals (rrd_graph.c). */
module CdefLaws {
  import opened Rpn
  import opened Arith
  import opened Cdef
  import N = Numbers
  import W = Rows

  function Word(op: Op): Node { Node(op, N.NaN, 0, 0, 0, 0) }

  function Constant(v: real): Node { Word(OpNumber).(val := N.Fin(v)) }

  /** The operands that depend on the time step: COUNT numbers the steps from 1, TIME is the time of the step, LTIME differs
      from it by the offset of the time zone, PREV is the output of the step before and unknown at the first. */
  lemma StepOperands(lib: Lib, gdes: seq<Source>, start: nat, step: nat, data: seq<N.Num>, k: nat)
    requires k < |data|
    ensures var t := start + Mul(step, k + 1);
            var ctx := ContextAt(lib, gdes, t, data[..k]);
            Operand(ctx, Word(OpCount)) == N.Fin((k + 1) as real) && Operand(ctx, Word(OpTime)) == N.Fin(t as real) &&
            Apply2(lib, OpSub, Operand(ctx, Word(OpLtime)), Operand(ctx, Word(OpTime))) == N.Fin(lib.tzOffset(t) as real) &&
            Operand(ctx, Word(OpPrev)) == (if k == 0 then N.NaN else data[k - 1]) && Operand(ctx, Word(OpNow)) == lib.now
  {
    hide Mul, Datas;
  }

  /** The constants: UNKN is unknown, INF and NEGINF bound every known value, and a number is its value. */
  lemma Constants(ctx: Context, v: real, a: N.Num)
    ensures Operand(ctx, Word(OpUnkn)).NaN? && Operand(ctx, Constant(v)) == N.Fin(v)
    ensures !a.NaN? ==> AtMost(a, Operand(ctx, Word(OpInf))) && AtMost(Operand(ctx, Word(OpNegInf)), a)
  {
  }

  /** The output before, or 0 where there is none or it is unknown: `PREV,UN,0,PREV,IF`. */
  function Carried(): Expr {
    Tri(Word(OpIf), Un(Word(OpUn), Leaf(Word(OpPrev))), Leaf(Constant(0.0)), Leaf(Word(OpPrev)))
  }

  function Total(x: Node): Expr { Bin(Word(OpAdd), Leaf(x), Carried()) }

  lemma CarriedValue(lib: Lib, gdes: seq<Source>, t: nat, before: seq<N.Num>)
    ensures Evaluable(gdes, Carried(), t, before)
    ensures ValueAt(lib, gdes, Carried(), t, before) ==
            if before == [] || before[|before| - 1].NaN? then N.Fin(0.0) else before[|before| - 1]
  {
    var prev, un := Leaf(Word(OpPrev)), Un(Word(OpUn), Leaf(Word(OpPrev)));
    assert Evaluable(gdes, prev, t, before) && Evaluable(gdes, un, t, before);
    assert Evaluable(gdes, Leaf(Constant(0.0)), t, before);
    assert ValueAt(lib, gdes, prev, t, before) == if before == [] then N.NaN else before[|before| - 1];
  }

  lemma TotalValue(lib: Lib, gdes: seq<Source>, x: Node, t: nat, before: seq<N.Num>)
    requires x.op.OpVariable? && x.ptr < |gdes| && Valid(gdes[x.ptr]) && gdes[x.ptr].dsCnt > 0
    requires gdes[x.ptr].start < t <= gdes[x.ptr].end
    ensures Evaluable(gdes, Total(x), t, before)
    ensures ValueAt(lib, gdes, Total(x), t, before) ==
            N.Add(SourceAt(gdes[x.ptr], t),
                  if before == [] || before[|before| - 1].NaN? then N.Fin(0.0) else before[|before| - 1])
  {
    hide N.Add, SourceAt, Valid;
    CarriedValue(lib, gdes, t, before);
    hide Carried;
    assert Evaluable(gdes, Leaf(x), t, before);
    assert ValueAt(lib, gdes, Leaf(x), t, before) == SourceAt(gdes[x.ptr], t);
  }

  lemma KthOutput(lib: Lib, gdes: seq<Source>, prog: seq<Node>, start: nat, step: nat, data: seq<N.Num>, k: nat)
    requires Bound(gdes, prog) && AllOutputs(lib, gdes, prog, start, step, data) && k < |data|
    ensures IsOutput(lib, gdes, prog, start, step, data[..k], data[k])
  {
  }

  /** A CDEF that adds up, `x,PREV,UN,0,PREV,IF,+`: each output is the source's value at its time plus the output before it,
      which counts as nothing where it is unknown. */
  lemma RunningTotal(lib: Lib, gdes: seq<Source>, x: Node, start: nat, step: nat, data: seq<N.Num>, k: nat)
    requires x.op.OpVariable? && x.ptr < |gdes| && Valid(gdes[x.ptr]) && gdes[x.ptr].dsCnt > 0 && k < |data|
    requires Bound(gdes, Postfix(Total(x))) && AllOutputs(lib, gdes, Postfix(Total(x)), start, step, data)
    requires gdes[x.ptr].start < start + Mul(step, k + 1) <= gdes[x.ptr].end
    ensures data[k] == N.Add(SourceAt(gdes[x.ptr], start + Mul(step, k + 1)),
                             if k == 0 || data[k - 1].NaN? then N.Fin(0.0) else data[k - 1])
  {
    hide Mul, SourceAt, Valid, Postfix, Bound, AllOutputs, IsOutput, N.Add, Evaluable, ValueAt, Total;
    KthOutput(lib, gdes, Postfix(Total(x)), start, step, data, k);
    TotalValue(lib, gdes, x, start + Mul(step, k + 1), data[..k]);
    OutputMeaning(lib, gdes, Total(x), start, step, data[..k], data[k]);
  }

  // ----- the buffer

  /** The buffer asked for has eight bytes for each output; but if the range ends before it starts, its size is that of the
      difference turned round in a word. */
  lemma BufferIs(start: nat, end: nat, step: nat)
    requires step > 0
    ensures start <= end && (end - start) / step * 8 < WORD && end < WORD ==>
            BufferSize(start, end, step) == 8 * Rows(start, end, step)
    ensures end < start < WORD / 2 && step > 8 ==> BufferSize(start, end, step) == (WORD - (start - end)) / step * 8
  {
    hide Mul;
    if start <= end && (end - start) / step * 8 < WORD && end < WORD {
      Small(end - start);
      Small((end - start) / step * 8);
    }
    if end < start < WORD / 2 && step > 8 {
      Turned(start - end);
      QuotientBelow(WORD - (start - end), step);
      Small((WORD - (start - end)) / step * 8);
    }
  }

  lemma Small(x: nat)
    requires x < WORD
    ensures x % WORD == x
  {
  }

  lemma Turned(x: nat)
    requires 0 < x < WORD
    ensures (0 - x) % WORD == WORD - x
  {
  }

  lemma QuotientBelow(x: nat, step: nat)
    requires step > 8 && x > 0
    ensures x / step * 8 < x
  {
    hide Mul;
    Quotient(x, step);
    var q := x / step;
    MulIs(step, q);
    if q > 0 { MulLess(q, 9, step); }
  }

  // ----- the sources

  /** The value of a source at a time is the cell of its own column in the row of that time. */
  lemma SourceColumn(src: Source, t: nat)
    requires Valid(src) && src.dsCnt > 0 && src.start < t <= src.end
    ensures var rows := (src.end - src.start) / src.step;
            W.Cells(src.dsCnt, rows) <= |src.data| && Row(src, t) < rows &&
            SourceAt(src, t) == W.Column(src.data, src.dsCnt, 0, rows, src.ds)[Row(src, t)]
  {
    hide Row, W.Cells;
    RowCovers(src, t);
    var rows := (src.end - src.start) / src.step;
    W.CellsAdd(src.dsCnt, 0, rows);
    W.ColumnAt(src.data, src.dsCnt, 0, rows, src.ds, Row(src, t));
  }

  // ----- the range

  /** The range is as large as the sources allow: it starts where one of them starts, and ends where one of them ends. */
  lemma {:induction false} RangeIsTight(gdes: seq<Source>, prog: seq<Node>)
    requires Bound(gdes, prog) && Steps(gdes, prog) != []
    ensures Start(gdes, prog) == 0 || exists i :: 0 <= i < |prog| && Used(gdes, prog[i]) && gdes[prog[i].ptr].start == Start(gdes, prog)
    ensures exists i :: 0 <= i < |prog| && Used(gdes, prog[i]) && gdes[prog[i].ptr].end == End(gdes, prog)
  {
    var front, node := prog[..|prog| - 1], prog[|prog| - 1];
    BoundFront(gdes, prog, |prog| - 1);
    assert forall i :: 0 <= i < |front| ==> prog[i] == front[i];
    if Steps(gdes, front) != [] {
      RangeIsTight(gdes, front);
    } else {
      NoSources(gdes, front);
    }
  }

  lemma {:induction false} NoSources(gdes: seq<Source>, prog: seq<Node>)
    requires Bound(gdes, prog) && Steps(gdes, prog) == []
    ensures Start(gdes, prog) == 0 == End(gdes, prog)
  {
    if prog != [] {
      BoundFront(gdes, prog, |prog| - 1);
      NoSources(gdes, prog[..|prog| - 1]);
    }
  }
}
