/** The compact form in which COMPUTE data sources are stored (rpn_compact and rpn_expand in rrd_rpncalc.c). */
module RpnCompact {
  import opened Numbers
  import opened Rpn
  import V = Values

  /** The part of a node that is stored: operator, constant and source number. */
  datatype Term = Term(op: Op, val: Num, ptr: int)

  /** One stored node; `val` is a short. A stored program ends at its end marker, here the length of the sequence. */
  datatype Compact = Compact(op: Op, val: int)

  /** Nodes that fit the parameter area of a data source definition, the end marker among them. */
  const MAX_NODES := 20
  const SHRT_MIN := -32768
  const SHRT_MAX := 32767

  /** The cast to short. */
  function Short(x: int): (s: int)
    ensures SHRT_MIN <= s <= SHRT_MAX
    ensures s == x <==> SHRT_MIN <= x <= SHRT_MAX
  {
    (x + 32768) % 65536 - 32768
  }

  /** A constant that the compact form can hold. */
  predicate Storable(x: Num) {
    x.Fin? && x.v.Floor as real == x.v && SHRT_MIN <= x.v.Floor <= SHRT_MAX
  }

  predicate CanCompact(prog: seq<Term>) {
    |prog| < MAX_NODES && forall i :: 0 <= i < |prog| && prog[i].op.OpNumber? ==> Storable(prog[i].val)
  }

  function Stored(t: Term): Compact {
    Compact(t.op, if t.op.OpNumber? && t.val.Fin? then Short(t.val.v.Floor) else if IsRef(t.op) then Short(t.ptr) else 0)
  }

  /** `rpn_compact`: None is its error return. */
  method Pack(rpnp: array<Term>) returns (rpnc: V.Option<seq<Compact>>)
    ensures rpnc.Some? <==> CanCompact(rpnp[..])
    ensures rpnc.Some? ==> |rpnc.value| == rpnp.Length && forall i :: 0 <= i < rpnp.Length ==> rpnc.value[i] == Stored(rpnp[i])
  {
    if rpnp.Length + 1 > MAX_NODES {
      return V.None;
    }
    var c := new Compact[rpnp.Length](_ => Compact(OpNumber, 0));
    var i := 0;
    while i < rpnp.Length
      invariant 0 <= i <= rpnp.Length
      invariant forall j :: 0 <= j < i && rpnp[j].op.OpNumber? ==> Storable(rpnp[j].val)
      invariant forall j :: 0 <= j < i ==> c[j] == Stored(rpnp[j])
    {
      var val := 0;
      var t := rpnp[i];
      if t.op.OpNumber? {
        var temp := Floor(t.val);
        if Less(temp, Fin(SHRT_MIN as real)) || Less(Fin(SHRT_MAX as real), temp) || !Same(temp, t.val) {
          assert rpnp[..][i] == t && !Storable(t.val);
          return V.None;
        }
        val := Short(temp.v.Floor);
      } else if t.op.OpVariable? || t.op.OpPrevOther? {
        val := Short(t.ptr);
      }
      c[i] := Compact(t.op, val);
      i := i + 1;
    }
    return V.Some(c[..]);
  }

  function Expanded(c: Compact): Term {
    Term(c.op, if c.op.OpNumber? then Fin(c.val as real) else Fin(0.0), if IsRef(c.op) then c.val else 0)
  }

  /** `rpn_expand`: the array has room for every program that fits the parameter area. */
  method Unpack(rpnc: seq<Compact>) returns (rpnp: seq<Term>)
    requires |rpnc| < MAX_NODES
    ensures |rpnp| == |rpnc| && forall i :: 0 <= i < |rpnc| ==> rpnp[i] == Expanded(rpnc[i])
  {
    var p := new Term[MAX_NODES](_ => Term(OpNumber, Fin(0.0), 0));
    var i := 0;
    while i < |rpnc|
      invariant 0 <= i <= |rpnc|
      invariant forall j :: 0 <= j < i ==> p[j] == Expanded(rpnc[j])
      invariant forall j :: i <= j < MAX_NODES ==> p[j] == Term(OpNumber, Fin(0.0), 0)
    {
      p[i] := p[i].(op := rpnc[i].op);
      if p[i].op.OpNumber? {
        p[i] := p[i].(val := Fin(rpnc[i].val as real));
      } else if p[i].op.OpVariable? || p[i].op.OpPrevOther? {
        p[i] := p[i].(ptr := rpnc[i].val);
      }
      i := i + 1;
    }
    return p[..i];
  }

  /** Two terms that mean the same: equal operators with equal constants or source numbers. */
  predicate Means(a: Term, b: Term) {
    a.op == b.op && (a.op.OpNumber? ==> a.val == b.val) && (IsRef(a.op) ==> a.ptr == b.ptr)
  }

  predicate AllMean(a: seq<Term>, b: seq<Term>) {
    |a| == |b| && forall i :: 0 <= i < |a| ==> Means(a[i], b[i])
  }

  /** Expanding what was compacted gives back the program exactly if its source numbers are shorts. */
  method RoundTrip(rpnp: array<Term>) returns (back: V.Option<seq<Term>>)
    ensures back.Some? <==> CanCompact(rpnp[..])
    ensures back.Some? ==>
      (AllMean(back.value, rpnp[..]) <==>
       forall i :: 0 <= i < rpnp.Length && IsRef(rpnp[i].op) ==> SHRT_MIN <= rpnp[i].ptr <= SHRT_MAX)
  {
    var rpnc := Pack(rpnp);
    if rpnc.None? {
      return V.None;
    }
    var b := Unpack(rpnc.value);
    back := V.Some(b);
    forall i | 0 <= i < rpnp.Length
      ensures Means(b[i], rpnp[i]) <==> (IsRef(rpnp[i].op) ==> SHRT_MIN <= rpnp[i].ptr <= SHRT_MAX)
    {
      assert rpnp[..][i] == rpnp[i];
    }
  }

  /** A node as `rpn_compact` leaves it: fields that its operator does not use are zero. */
  predicate Canonical(c: Compact) {
    SHRT_MIN <= c.val <= SHRT_MAX && (!c.op.OpNumber? && !IsRef(c.op) ==> c.val == 0)
  }

  /** Compacting what was expanded gives back the stored program, and is always possible. */
  lemma PackUnpacked(rpnc: seq<Compact>, prog: seq<Term>)
    requires |rpnc| < MAX_NODES && |prog| == |rpnc|
    requires forall i :: 0 <= i < |rpnc| ==> Canonical(rpnc[i]) && prog[i] == Expanded(rpnc[i])
    ensures CanCompact(prog) && forall i :: 0 <= i < |rpnc| ==> Stored(prog[i]) == rpnc[i]
  {
    forall i | 0 <= i < |rpnc| ensures Stored(prog[i]) == rpnc[i] && (prog[i].op.OpNumber? ==> Storable(prog[i].val)) {
      assert (rpnc[i].val as real).Floor == rpnc[i].val;
    }
  }
}
