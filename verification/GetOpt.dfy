/** The PERMUTE ordering of rrd_getopt.c: options are moved in front of the other arguments. */
module GetOpt {

  /** An element that does not have option syntax (the NONOPTION_P macro). */
  predicate NonOption(e: string) {
    e == "" || e[0] != '-' || |e| == 1
  }

  const DASHES: string := "--"

  /** Elements taken by the option that starts `args`: itself, and the next element when it needs an argument. */
  function Width(args: seq<string>, takesArg: string -> bool): (n: nat)
    requires args != []
    ensures 1 <= n <= |args|
  {
    if takesArg(args[0]) && |args| > 1 then 2 else 1
  }

  /** Options with their arguments, in order; "--" counts as the last of them. */
  function Options(args: seq<string>, takesArg: string -> bool): seq<string>
    decreases |args|
  {
    if args == [] then []
    else if args[0] == DASHES then [DASHES]
    else if NonOption(args[0]) then Options(args[1..], takesArg)
    else args[..Width(args, takesArg)] + Options(args[Width(args, takesArg)..], takesArg)
  }

  /** Everything else, in order. */
  function Others(args: seq<string>, takesArg: string -> bool): seq<string>
    decreases |args|
  {
    if args == [] then []
    else if args[0] == DASHES then args[1..]
    else if NonOption(args[0]) then [args[0]] + Others(args[1..], takesArg)
    else Others(args[Width(args, takesArg)..], takesArg)
  }

  /** `s` with its blocks [lo, mid) and [mid, hi) exchanged. */
  function Exchanged<T>(s: seq<T>, lo: nat, mid: nat, hi: nat): (r: seq<T>)
    requires lo <= mid <= hi <= |s|
    ensures |r| == |s|
  {
    s[..lo] + s[mid..hi] + s[lo..mid] + s[hi..]
  }

  /** `s` with the `len` elements at i swapped with those at j, pairwise. */
  function Swapped<T>(s: seq<T>, i: nat, j: nat, len: nat): (r: seq<T>)
    requires i + len <= j && j + len <= |s|
    ensures |r| == |s|
  {
    s[..i] + s[j..j + len] + s[i + len..j] + s[i..i + len] + s[j + len..]
  }

  lemma SwapShortBottom<T>(s: seq<T>, lo: nat, mid: nat, hi: nat)
    requires lo <= mid <= hi <= |s| && hi - mid > mid - lo
    ensures Exchanged(Swapped(s, lo, hi - (mid - lo), mid - lo), lo, mid, hi - (mid - lo)) == Exchanged(s, lo, mid, hi)
  {
    hide Swapped, Exchanged;
    var len := mid - lo;
    var a, b, c, d, e := s[..lo], s[lo..mid], s[mid..hi - len], s[hi - len..hi], s[hi..];
    assert s == a + b + c + d + e;
    OuterSwapped(a, b, c, d, e);
    Regroup(a, b, c, d, e);
    MiddleExchanged(a, d, c, b + e);
    MiddleExchanged(a, b, c + d, e);
  }

  lemma OuterSwapped<T>(a: seq<T>, b: seq<T>, c: seq<T>, d: seq<T>, e: seq<T>)
    requires |b| == |d|
    ensures Swapped(a + b + c + d + e, |a|, |a| + |b| + |c|, |b|) == a + d + c + b + e
  {
  }

  lemma MiddleExchanged<T>(a: seq<T>, b: seq<T>, c: seq<T>, d: seq<T>)
    ensures Exchanged(a + b + c + d, |a|, |a| + |b|, |a| + |b| + |c|) == a + c + b + d
  {
  }

  lemma Regroup<T>(a: seq<T>, b: seq<T>, c: seq<T>, d: seq<T>, e: seq<T>)
    ensures a + b + c + d + e == a + b + (c + d) + e
    ensures a + d + c + b + e == a + d + c + (b + e)
    ensures a + c + d + (b + e) == a + (c + d) + b + e
  {
  }

  lemma SwapShortTop<T>(s: seq<T>, lo: nat, mid: nat, hi: nat)
    requires lo <= mid <= hi <= |s| && hi - mid <= mid - lo
    ensures Exchanged(Swapped(s, lo, mid, hi - mid), lo + (hi - mid), mid, hi) == Exchanged(s, lo, mid, hi)
  {
    var len := hi - mid;
    var t := Swapped(s, lo, mid, len);
    assert t[..lo + len] == s[..lo] + s[mid..hi];
    assert t[lo + len..mid] == s[lo + len..mid];
    assert t[mid..hi] == s[lo..lo + len];
    assert t[hi..] == s[hi..];
    assert s[lo..mid] == s[lo..lo + len] + s[lo + len..mid];
  }

  lemma ExchangeNothing<T>(s: seq<T>, lo: nat, mid: nat, hi: nat)
    requires lo <= mid <= hi <= |s| && (lo == mid || mid == hi)
    ensures Exchanged(s, lo, mid, hi) == s
  {
  }

  /** The inner loops of `exchange`: element-wise swap through a temporary. */
  method SwapBlocks<T>(a: array<T>, i: nat, j: nat, len: nat)
    requires i + len <= j && j + len <= a.Length
    modifies a
    ensures a[..] == Swapped(old(a[..]), i, j, len)
  {
    ghost var s := a[..];
    var k := 0;
    assert Swapped(s, i, j, 0) == s;
    while k < len
      invariant k <= len && a.Length == |s|
      invariant a[..] == Swapped(s, i, j, k)
    {
      SwapOne(s, i, j, k);
      var tem := a[i + k];
      a[i + k] := a[j + k];
      a[j + k] := tem;
      k := k + 1;
    }
  }

  lemma SwapOne<T>(s: seq<T>, i: nat, j: nat, k: nat)
    requires i + k < j && j + k < |s|
    ensures var t := Swapped(s, i, j, k);
            t[i + k := t[j + k]][j + k := t[i + k]] == Swapped(s, i, j, k + 1)
  {
    var t := Swapped(s, i, j, k);
    assert t[i + k] == s[i + k] && t[j + k] == s[j + k];
    assert s[j..j + k + 1] == s[j..j + k] + [s[j + k]];
    assert s[i..i + k + 1] == s[i..i + k] + [s[i + k]];
  }

  /** The loop of `exchange`: the shorter block is swapped with the far end of the longer one until one is empty. */
  method Rotate<T>(a: array<T>, lo: nat, mid: nat, hi: nat)
    requires lo <= mid <= hi <= a.Length
    modifies a
    ensures a[..] == Exchanged(old(a[..]), lo, mid, hi)
  {
    hide Exchanged, Swapped;
    ghost var target := Exchanged(a[..], lo, mid, hi);
    var bottom, middle, top := lo, mid, hi;
    while top > middle && middle > bottom
      invariant 0 <= bottom <= middle <= top <= a.Length
      invariant Exchanged(a[..], bottom, middle, top) == target
      decreases top - bottom
    {
      ghost var s := a[..];
      if top - middle > middle - bottom {
        var len := middle - bottom;
        SwapShortBottom(s, bottom, middle, top);
        SwapBlocks(a, bottom, top - len, len);
        top := top - len;
      } else {
        var len := top - middle;
        SwapShortTop(s, bottom, middle, top);
        SwapBlocks(a, bottom, middle, len);
        bottom := bottom + len;
      }
    }
    ExchangeNothing(a[..], bottom, middle, top);
  }

  class Scanner {
    const argv: array<string>
    var optind: nat
    var firstNonopt: nat
    var lastNonopt: nat

    constructor (args: array<string>)
      ensures argv == args && optind == 1 && firstNonopt == 1 && lastNonopt == 1
    {
      argv, optind, firstNonopt, lastNonopt := args, 1, 1, 1;
    }

    /** `exchange`: the skipped non-options trade places with the options that follow them. */
    method Exchange()
      requires firstNonopt <= lastNonopt <= optind <= argv.Length
      modifies this`firstNonopt, this`lastNonopt, argv
      ensures argv[..] == Exchanged(old(argv[..]), old(firstNonopt), old(lastNonopt), optind)
      ensures firstNonopt == old(firstNonopt) + (optind - old(lastNonopt)) && lastNonopt == optind
    {
      Rotate(argv, firstNonopt, lastNonopt, optind);
      firstNonopt := firstNonopt + (optind - lastNonopt);
      lastNonopt := optind;
    }

    /** The bookkeeping at the start of a call: bring the options just handled in front of the non-options
        skipped before them, then skip the non-options that follow. */
    method Collect(ghost takesArg: string -> bool)
      requires firstNonopt <= lastNonopt <= optind <= argv.Length
      modifies this, argv
      ensures firstNonopt <= lastNonopt == optind <= argv.Length && old(optind) <= optind
      ensures optind < argv.Length ==> !NonOption(argv[optind])
      ensures Front(argv[..], firstNonopt, optind, optind, takesArg)
           == old(Front(argv[..], firstNonopt, lastNonopt, optind, takesArg))
      ensures Back(argv[..], firstNonopt, optind, optind, takesArg)
           == old(Back(argv[..], firstNonopt, lastNonopt, optind, takesArg))
      ensures old(firstNonopt) <= firstNonopt
    {
      hide Front, Back, Exchanged;
      GatherParts(argv[..], firstNonopt, lastNonopt, optind, takesArg);
      if firstNonopt != lastNonopt && lastNonopt != optind {
        Exchange();
      } else if lastNonopt != optind {
        firstNonopt := optind;
      }
      SkipOthers(takesArg);
    }

    /** Skips non-options and extends the range of those skipped. */
    method SkipOthers(ghost takesArg: string -> bool)
      requires firstNonopt <= optind <= argv.Length
      modifies this`optind, this`lastNonopt
      ensures firstNonopt <= lastNonopt == optind <= argv.Length && old(optind) <= optind
      ensures optind < argv.Length ==> !NonOption(argv[optind])
      ensures Front(argv[..], firstNonopt, optind, optind, takesArg)
           == old(Front(argv[..], firstNonopt, optind, optind, takesArg))
      ensures Back(argv[..], firstNonopt, optind, optind, takesArg)
           == old(Back(argv[..], firstNonopt, optind, optind, takesArg))
    {
      while optind < argv.Length && NonOption(argv[optind])
        invariant firstNonopt <= optind <= argv.Length && old(optind) <= optind
        invariant Front(argv[..], firstNonopt, optind, optind, takesArg)
               == old(Front(argv[..], firstNonopt, optind, optind, takesArg))
        invariant Back(argv[..], firstNonopt, optind, optind, takesArg)
               == old(Back(argv[..], firstNonopt, optind, optind, takesArg))
      {
        SkipParts(argv[..], firstNonopt, optind, takesArg);
        optind := optind + 1;
      }
      lastNonopt := optind;
    }

    /** The element "--": taken like an option, and everything after it is a non-option. */
    method StopAtDashes(ghost takesArg: string -> bool)
      requires firstNonopt <= lastNonopt == optind < argv.Length && argv[optind] == DASHES
      modifies this, argv
      ensures firstNonopt <= lastNonopt == optind == argv.Length
      ensures argv[..firstNonopt] == old(Front(argv[..], firstNonopt, optind, optind, takesArg))
      ensures argv[firstNonopt..] == old(Back(argv[..], firstNonopt, optind, optind, takesArg))
    {
      DashParts(argv[..], firstNonopt, optind, takesArg);
      ghost var s := argv[..];
      optind := optind + 1;
      if firstNonopt != lastNonopt && lastNonopt != optind {
        Exchange();
      } else if firstNonopt == lastNonopt {
        firstNonopt := optind;
      }
      assert argv[..firstNonopt] == argv[..][..firstNonopt];
      assert argv[firstNonopt..] == argv[..][firstNonopt..];
      lastNonopt := argv.Length;
      optind := argv.Length;
    }

    /** One call of `_getopt_internal` up to the decoding of the next option element: either the scan is over
        and the result is -1, or `optind` is left on an option. */
    method Advance(ghost takesArg: string -> bool) returns (done: bool)
      requires firstNonopt <= lastNonopt <= optind <= argv.Length
      modifies this, argv
      ensures done ==> optind <= argv.Length
      ensures done ==> argv[..optind] == old(Front(argv[..], firstNonopt, lastNonopt, optind, takesArg))
      ensures done ==> argv[optind..] == old(Back(argv[..], firstNonopt, lastNonopt, optind, takesArg))
      ensures !done ==> firstNonopt <= lastNonopt == optind < argv.Length && old(optind) <= optind
      ensures !done ==> !NonOption(argv[optind]) && argv[optind] != DASHES
      ensures !done ==>
        Front(argv[..], firstNonopt, optind, optind, takesArg) ==
        old(Front(argv[..], firstNonopt, lastNonopt, optind, takesArg))
      ensures !done ==>
        Back(argv[..], firstNonopt, optind, optind, takesArg) ==
        old(Back(argv[..], firstNonopt, lastNonopt, optind, takesArg))
    {
      ghost var front := Front(argv[..], firstNonopt, lastNonopt, optind, takesArg);
      ghost var back := Back(argv[..], firstNonopt, lastNonopt, optind, takesArg);
      Collect(takesArg);
      if optind != argv.Length && argv[optind] == DASHES {
        StopAtDashes(takesArg);
      } else if optind == argv.Length {
        EndParts(argv[..], firstNonopt, takesArg);
      }
      if optind == argv.Length {
        assert argv[..firstNonopt] == front && argv[firstNonopt..] == back;
        if firstNonopt != lastNonopt {
          optind := firstNonopt;
        }
        return true;
      }
      return false;
    }

    /** Calls until the scan is over, every option taking its own element and at most one argument:
        a stable partition of the arguments, with `optind` at the boundary. */
    method Permute(takesArg: string -> bool)
      requires 1 == firstNonopt == lastNonopt == optind <= argv.Length
      modifies this, argv
      ensures argv[..] == old(argv[..])[..1] + Options(old(argv[..])[1..], takesArg) + Others(old(argv[..])[1..], takesArg)
      ensures optind == 1 + |Options(old(argv[..])[1..], takesArg)|
    {
      hide Front, Back;
      ghost var s := argv[..];
      ghost var front := s[..1] + Options(s[1..], takesArg);
      ghost var back := Others(s[1..], takesArg);
      StartParts(s, takesArg);
      var done := Advance(takesArg);
      while !done
        invariant done ==> optind <= argv.Length && argv[..optind] == front && argv[optind..] == back
        invariant !done ==> firstNonopt <= lastNonopt == optind < argv.Length
        invariant !done ==> !NonOption(argv[optind]) && argv[optind] != DASHES
        invariant !done ==> Front(argv[..], firstNonopt, optind, optind, takesArg) == front
        invariant !done ==> Back(argv[..], firstNonopt, optind, optind, takesArg) == back
        decreases !done, argv.Length - optind
      {
        TakeParts(argv[..], firstNonopt, optind, takesArg);
        var width := if takesArg(argv[optind]) && optind + 1 < argv.Length then 2 else 1;
        optind := optind + width;
        done := Advance(takesArg);
      }
      assert argv[..] == argv[..optind] + argv[optind..];
    }
  }

  /** What will stand in front of the non-options: the prefix, the options after the skipped
      non-options [first, last), and the options not yet read. */
  function Front(s: seq<string>, first: nat, last: nat, next: nat, takesArg: string -> bool): seq<string>
    requires first <= last <= next <= |s|
  {
    s[..first] + s[last..next] + Options(s[next..], takesArg)
  }

  /** The non-options skipped so far and those not yet read. */
  function Back(s: seq<string>, first: nat, last: nat, next: nat, takesArg: string -> bool): seq<string>
    requires first <= last <= next <= |s|
  {
    s[first..last] + Others(s[next..], takesArg)
  }

  lemma StartParts(s: seq<string>, takesArg: string -> bool)
    requires s != []
    ensures Front(s, 1, 1, 1, takesArg) == s[..1] + Options(s[1..], takesArg)
    ensures Back(s, 1, 1, 1, takesArg) == Others(s[1..], takesArg)
  {
  }

  lemma ExchangedParts<T>(s: seq<T>, first: nat, last: nat, next: nat)
    requires first <= last <= next <= |s|
    ensures var t, f := Exchanged(s, first, last, next), first + (next - last);
            t[..f] == s[..first] + s[last..next] && t[f..next] == s[first..last] && t[next..] == s[next..]
  {
  }

  /** Exchanging, or moving an empty range of non-options, changes neither part. */
  lemma GatherParts(s: seq<string>, first: nat, last: nat, next: nat, takesArg: string -> bool)
    requires first <= last <= next <= |s|
    ensures var t, f := Exchanged(s, first, last, next), first + (next - last);
            Front(t, f, next, next, takesArg) == Front(s, first, last, next, takesArg) &&
            Back(t, f, next, next, takesArg) == Back(s, first, last, next, takesArg)
    ensures first == last ==> Front(s, next, next, next, takesArg) == Front(s, first, last, next, takesArg) &&
                              Back(s, next, next, next, takesArg) == Back(s, first, last, next, takesArg)
  {
    ExchangedParts(s, first, last, next);
    if first == last {
      assert s[..next] == s[..first] + s[last..next];
    }
  }

  lemma SkipParts(s: seq<string>, first: nat, next: nat, takesArg: string -> bool)
    requires first <= next < |s| && NonOption(s[next])
    ensures Front(s, first, next + 1, next + 1, takesArg) == Front(s, first, next, next, takesArg)
    ensures Back(s, first, next + 1, next + 1, takesArg) == Back(s, first, next, next, takesArg)
  {
    var rest := s[next..];
    assert rest[1..] == s[next + 1..];
    assert Options(rest, takesArg) == Options(rest[1..], takesArg);
    assert Others(rest, takesArg) == [s[next]] + Others(rest[1..], takesArg);
    assert s[first..next + 1] == s[first..next] + [s[next]];
  }

  lemma TakeParts(s: seq<string>, first: nat, next: nat, takesArg: string -> bool)
    requires first <= next < |s| && !NonOption(s[next]) && s[next] != DASHES
    ensures var n := next + Width(s[next..], takesArg);
            Front(s, first, next, n, takesArg) == Front(s, first, next, next, takesArg) &&
            Back(s, first, next, n, takesArg) == Back(s, first, next, next, takesArg)
  {
    var w := Width(s[next..], takesArg);
    assert s[next..][w..] == s[next + w..];
    assert s[next..][..w] == s[next..next + w];
  }

  lemma DashParts(s: seq<string>, first: nat, next: nat, takesArg: string -> bool)
    requires first <= next < |s| && s[next] == DASHES
    ensures var t := Exchanged(s, first, next, next + 1);
            t[..first + 1] == Front(s, first, next, next, takesArg) &&
            t[first + 1..] == Back(s, first, next, next, takesArg)
    ensures first == next ==> Exchanged(s, first, next, next + 1) == s
  {
    ExchangedParts(s, first, next, next + 1);
    var t := Exchanged(s, first, next, next + 1);
    assert s[next..][1..] == s[next + 1..];
    assert t[first + 1..] == t[first + 1..next + 1] + t[next + 1..];
  }

  lemma EndParts(s: seq<string>, first: nat, takesArg: string -> bool)
    requires first <= |s|
    ensures Front(s, first, |s|, |s|, takesArg) == s[..first]
    ensures Back(s, first, |s|, |s|, takesArg) == s[first..]
  {
  }

  /** The two parts together are the arguments again, nothing lost or doubled. */
  lemma {:induction false} PartsArePermutation(args: seq<string>, takesArg: string -> bool)
    ensures multiset(Options(args, takesArg) + Others(args, takesArg)) == multiset(args)
    decreases |args|
  {
    if args == [] {
    } else if args[0] == DASHES {
      assert args == [DASHES] + args[1..];
    } else if NonOption(args[0]) {
      PartsArePermutation(args[1..], takesArg);
      assert args == [args[0]] + args[1..];
    } else {
      var w := Width(args, takesArg);
      PartsArePermutation(args[w..], takesArg);
      assert args == args[..w] + args[w..];
    }
  }

  /** An element has option syntax exactly if it is a dash with something behind it. */
  lemma OptionSyntax(c: char, rest: string)
    ensures NonOption([c] + rest) <==> c != '-' || rest == ""
    ensures NonOption("") && !NonOption(DASHES)
  {
  }

  /** Without "--", what ends up behind has no option syntax; and if no option takes an argument, what ends up in front has. */
  lemma {:induction false} PartsSeparate(args: seq<string>, takesArg: string -> bool)
    requires DASHES !in args
    ensures forall e :: e in Others(args, takesArg) ==> NonOption(e)
    ensures (forall e :: !takesArg(e)) ==> forall e :: e in Options(args, takesArg) ==> !NonOption(e)
    decreases |args|
  {
    if args != [] {
      assert args[0] in args;
      var n := if NonOption(args[0]) then 1 else Width(args, takesArg);
      assert forall e :: e in args[n..] ==> e in args;
      PartsSeparate(args[n..], takesArg);
    }
  }

  /** An option that takes an argument keeps the element behind it, whatever that looks like; everything behind "--" stays. */
  lemma ArgumentStays(o: string, v: string, rest: seq<string>, takesArg: string -> bool)
    requires !NonOption(o) && o != DASHES
    ensures takesArg(o) ==> Options([o, v] + rest, takesArg) == [o, v] + Options(rest, takesArg) &&
                            Others([o, v] + rest, takesArg) == Others(rest, takesArg)
    ensures Options([DASHES] + rest, takesArg) == [DASHES] && Others([DASHES] + rest, takesArg) == rest
  {
    var args := [o, v] + rest;
    assert args[..2] == [o, v] && args[2..] == rest;
    assert ([DASHES] + rest)[1..] == rest;
  }
}
