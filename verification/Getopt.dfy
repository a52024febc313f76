/** The argument scan of getopt.c for short options, in its three orders. In one of them argv is permuted in place
    while options are reported. */
module Getopt {

  // ---------------------------------------------------------------- what the scan means

  datatype Kind = Invalid | NoArgument | Required | Optional

  /** What the option string says about an option character. */
  function KindOf(optstring: string, c: char): Kind {
    var i := FirstIndex(optstring, c);
    if i == |optstring| || c == ':' then Invalid
    else if i + 1 < |optstring| && optstring[i + 1] == ':' then
      if i + 2 < |optstring| && optstring[i + 2] == ':' then Optional else Required
    else NoArgument
  }

  function FirstIndex(s: string, c: char): (i: nat)
    ensures i <= |s|
    ensures i < |s| ==> s[i] == c
    ensures forall j :: 0 <= j < i ==> s[j] != c
  {
    if s == "" || s[0] == c then 0 else 1 + FirstIndex(s[1..], c)
  }

  /** An option 'W' followed by a semicolon announces long options, which a scan for short options does not have. */
  predicate WantsLongOptions(optstring: string) {
    var i := FirstIndex(optstring, 'W');
    i + 1 < |optstring| && optstring[i + 1] == ';'
  }

  /** What is done with elements that are no options: they are moved behind the options, or the first of them ends the
      scan, or they are reported in their places. */
  datatype Order = Permute | RequireOrder | ReturnInOrder

  function OrderOf(optstring: string, posix: bool): Order {
    if optstring != "" && optstring[0] == '-' then ReturnInOrder
    else if optstring != "" && optstring[0] == '+' then RequireOrder
    else if posix then RequireOrder
    else Permute
  }

  /** The option string of the first call. Later calls see its first character again. */
  function Stripped(optstring: string): string {
    if optstring != "" && (optstring[0] == '-' || optstring[0] == '+') then optstring[1..] else optstring
  }

  /** The option string for the next report, and that for the reports after it. */
  datatype Spec = Spec(now: string, later: string, order: Order)

  function FirstSpec(optstring: string, posix: bool): Spec {
    Spec(Stripped(optstring), optstring, OrderOf(optstring, posix))
  }

  /** The character that selects the order is unknown in the first report and an option in the later ones. */
  lemma LeadingCharacterBecomesAnOption(optstring: string, posix: bool)
    requires optstring != "" && (optstring[0] == '-' || optstring[0] == '+')
    requires forall i :: 1 <= i < |optstring| ==> optstring[i] != optstring[0]
    ensures var c, first := optstring[0], FirstSpec(optstring, posix);
      KindOf(first.now, c) == Invalid && KindOf(first.later, c) != Invalid
  {
    var c := optstring[0];
    assert forall i :: 0 <= i < |optstring| - 1 ==> optstring[1..][i] == optstring[i + 1];
  }

  function LaterSpec(spec: Spec): Spec {
    spec.(now := spec.later)
  }

  datatype Report =
    | Flag(c: char)
    | WithArgument(c: char, arg: string)
    | Unknown(c: char)
    | MissingArgument(c: char)
    | Element(arg: string)

  /** The arguments split into options with their arguments, and the rest, with the options reported. Elements that are
      reported in their places are among the options. */
  datatype Parsed = Parsed(options: seq<string>, others: seq<string>, reports: seq<Report>)

  predicate NonOption(a: string) {
    |a| < 2 || a[0] != '-'
  }

  /** A single scan from left to right that moves nothing. After "--" everything is a non-option. */
  function Parse(spec: Spec, args: seq<string>): Parsed
    decreases |args|, 1, 0
  {
    if args == [] then Parsed([], [], [])
    else if args[0] == "--" then Parsed(args[..1], args[1..], [])
    else if NonOption(args[0]) then
      match spec.order
      case Permute =>
        var p := Parse(spec, args[1..]);
        Parsed(p.options, [args[0]] + p.others, p.reports)
      case RequireOrder => Parsed([], args, [])
      case ReturnInOrder => Take(spec, args, 1, Element(args[0]))
    else ParseCluster(spec, args[0][1..], args)
  }

  /** The remaining option characters of the first argument, and what follows. */
  function ParseCluster(spec: Spec, chars: string, args: seq<string>): Parsed
    requires chars != "" && args != []
    decreases |args|, 0, |chars|
  {
    var c, rest := chars[0], chars[1..];
    match KindOf(spec.now, c)
    case Required =>
      if rest != "" then Take(spec, args, 1, WithArgument(c, rest))
      else if |args| > 1 then Take(spec, args, 2, WithArgument(c, args[1]))
      else Take(spec, args, 1, MissingArgument(c))
    case Optional =>
      Take(spec, args, 1, if rest != "" then WithArgument(c, rest) else Flag(c))
    case k =>
      var r := if k == Invalid then Unknown(c) else Flag(c);
      if rest == "" then Take(spec, args, 1, r)
      else
        var p := ParseCluster(LaterSpec(spec), rest, args);
        p.(reports := [r] + p.reports)
  }

  function Take(spec: Spec, args: seq<string>, k: nat, r: Report): Parsed
    requires 1 <= k <= |args|
    decreases |args|, 0, 0
  {
    var p := Parse(LaterSpec(spec), args[k..]);
    Parsed(args[..k] + p.options, p.others, [r] + p.reports)
  }

  /** How many elements the last character of a cluster takes, with its argument. */
  function TakenBy(spec: Spec, c: char, rest: string, args: seq<string>): (n: nat)
    requires args != []
    ensures 1 <= n <= |args|
  {
    if KindOf(spec.now, c) == Required && rest == "" && |args| > 1 then 2 else 1
  }

  predicate GoesOn(spec: Spec, c: char, rest: string) {
    var k := KindOf(spec.now, c);
    (k == Invalid || k == NoArgument) && rest != ""
  }

  /** A cluster goes on with its next character or takes its elements. */
  lemma ClusterStep(spec: Spec, chars: string, args: seq<string>)
    requires chars != "" && args != []
    ensures var c, rest := chars[0], chars[1..];
      var p := ParseCluster(spec, chars, args);
      if GoesOn(spec, c, rest) then
        var q := ParseCluster(LaterSpec(spec), rest, args); p.options == q.options && p.others == q.others
      else
        var n := TakenBy(spec, c, rest, args);
        var q := Parse(LaterSpec(spec), args[n..]); p.options == args[..n] + q.options && p.others == q.others
  {
    hide KindOf, Parse, LaterSpec;
  }

  /** Nothing is lost, added or duplicated. */
  lemma {:induction false} ParseIsPermutation(spec: Spec, args: seq<string>)
    ensures var p := Parse(spec, args);
      multiset(p.options) + multiset(p.others) == multiset(args)
    decreases |args|, 1, 0
  {
    if args == [] {
    } else if args[0] == "--" {
      assert args == args[..1] + args[1..];
    } else if NonOption(args[0]) {
      assert args == [args[0]] + args[1..];
      ParseIsPermutation(if spec.order == Permute then spec else LaterSpec(spec), args[1..]);
    } else {
      ClusterIsPermutation(spec, args[0][1..], args);
    }
  }

  lemma {:induction false} ClusterIsPermutation(spec: Spec, chars: string, args: seq<string>)
    requires chars != "" && args != []
    ensures var p := ParseCluster(spec, chars, args);
      multiset(p.options) + multiset(p.others) == multiset(args)
    decreases |args|, 0, |chars|
  {
    hide Parse, ParseCluster, KindOf, TakenBy;
    ClusterStep(spec, chars, args);
    if GoesOn(spec, chars[0], chars[1..]) {
      ClusterIsPermutation(LaterSpec(spec), chars[1..], args);
    } else {
      var n := TakenBy(spec, chars[0], chars[1..], args);
      ParseIsPermutation(LaterSpec(spec), args[n..]);
      assert args == args[..n] + args[n..];
    }
  }

  /** Without permuting, nothing is moved. */
  lemma {:induction false} OrderedScansMoveNothing(spec: Spec, args: seq<string>)
    requires spec.order != Permute
    ensures var p := Parse(spec, args); p.options + p.others == args
    decreases |args|, 1, 0
  {
    if args != [] && args[0] != "--" {
      if NonOption(args[0]) {
        assert args == [args[0]] + args[1..];
        OrderedScansMoveNothing(LaterSpec(spec), args[1..]);
      } else {
        OrderedClustersMoveNothing(spec, args[0][1..], args);
      }
    }
  }

  lemma {:induction false} OrderedClustersMoveNothing(spec: Spec, chars: string, args: seq<string>)
    requires spec.order != Permute && chars != "" && args != []
    ensures var p := ParseCluster(spec, chars, args); p.options + p.others == args
    decreases |args|, 0, |chars|
  {
    hide Parse, ParseCluster, KindOf, TakenBy;
    ClusterStep(spec, chars, args);
    if GoesOn(spec, chars[0], chars[1..]) {
      OrderedClustersMoveNothing(LaterSpec(spec), chars[1..], args);
    } else {
      var n := TakenBy(spec, chars[0], chars[1..], args);
      var p := Parse(LaterSpec(spec), args[n..]);
      OrderedScansMoveNothing(LaterSpec(spec), args[n..]);
      assert args[..n] + p.options + p.others == args[..n] + (p.options + p.others);
    }
  }

  /** The scan has come to "--". */
  predicate Ended(p: Parsed) {
    p.options != [] && p.options[|p.options| - 1] == "--"
  }

  /** Where order is required, the scan ends at the first element that is no option, unless "--" ends it or there is
      none. Where elements are returned in order, none is left but those behind "--". */
  lemma {:induction false} WhereOrderedScansEnd(spec: Spec, args: seq<string>)
    requires spec.order != Permute
    ensures var p := Parse(spec, args);
      p.others == [] || Ended(p) || (spec.order == RequireOrder && NonOption(p.others[0]))
    decreases |args|, 1, 0
  {
    if args != [] && args[0] != "--" {
      if NonOption(args[0]) {
        WhereOrderedScansEnd(LaterSpec(spec), args[1..]);
      } else {
        WhereOrderedClustersEnd(spec, args[0][1..], args);
      }
    }
  }

  lemma {:induction false} WhereOrderedClustersEnd(spec: Spec, chars: string, args: seq<string>)
    requires spec.order != Permute && chars != "" && args != []
    ensures var p := ParseCluster(spec, chars, args);
      p.others == [] || Ended(p) || (spec.order == RequireOrder && NonOption(p.others[0]))
    decreases |args|, 0, |chars|
  {
    hide Parse, ParseCluster, KindOf, TakenBy;
    ClusterStep(spec, chars, args);
    if GoesOn(spec, chars[0], chars[1..]) {
      WhereOrderedClustersEnd(LaterSpec(spec), chars[1..], args);
    } else {
      WhereOrderedScansEnd(LaterSpec(spec), args[TakenBy(spec, chars[0], chars[1..], args)..]);
    }
  }

  // ---------------------------------------------------------------- exchanging two adjacent blocks

  /** Block [m,t) moved in front of block [b,m). */
  function Rotated<T>(s: seq<T>, b: nat, m: nat, t: nat): (r: seq<T>)
    requires b <= m <= t <= |s|
    ensures |r| == |s|
  {
    s[..b] + s[m..t] + s[b..m] + s[t..]
  }

  lemma RotatedAt<T>(s: seq<T>, b: nat, m: nat, t: nat)
    requires b <= m <= t <= |s|
    ensures forall i :: 0 <= i < |s| ==>
      Rotated(s, b, m, t)[i]
        == s[if i < b || t <= i then i else if i < b + (t - m) then i + (m - b) else i - (t - m)]
  {
  }

  /** Two disjoint blocks of equal length swapped. */
  function Swapped<T>(s: seq<T>, i: nat, j: nat, len: nat): (r: seq<T>)
    requires i + len <= j && j + len <= |s|
    ensures |r| == |s|
  {
    s[..i] + s[j..j + len] + s[i + len..j] + s[i..i + len] + s[j + len..]
  }

  lemma SwappedAt<T>(s: seq<T>, i: nat, j: nat, len: nat)
    requires i + len <= j && j + len <= |s|
    ensures forall k :: 0 <= k < |s| ==>
      Swapped(s, i, j, len)[k]
        == s[if i <= k < i + len then k + (j - i) else if j <= k < j + len then k - (j - i) else k]
  {
  }

  /** The shorter bottom block goes to the top at once; what is left to rotate has the same middle. */
  lemma RotateByBottom<T>(s: seq<T>, b: nat, m: nat, t: nat)
    requires b <= m <= t <= |s| && m - b <= t - m
    ensures Rotated(Swapped(s, b, t - (m - b), m - b), b, m, t - (m - b)) == Rotated(s, b, m, t)
  {
    hide Rotated, Swapped;
    var len := m - b;
    SwappedAt(s, b, t - len, len);
    RotatedAt(Swapped(s, b, t - len, len), b, m, t - len);
    RotatedAt(s, b, m, t);
  }

  lemma RotateByTop<T>(s: seq<T>, b: nat, m: nat, t: nat)
    requires b <= m <= t <= |s| && t - m <= m - b
    ensures Rotated(Swapped(s, b, m, t - m), b + (t - m), m, t) == Rotated(s, b, m, t)
  {
    hide Rotated, Swapped;
    var len := t - m;
    SwappedAt(s, b, m, len);
    RotatedAt(Swapped(s, b, m, len), b + len, m, t);
    RotatedAt(s, b, m, t);
  }

  lemma RotateNothing<T>(s: seq<T>, b: nat, m: nat, t: nat)
    requires b <= m <= t <= |s| && (b == m || m == t)
    ensures Rotated(s, b, m, t) == s
  {
    hide Rotated;
    RotatedAt(s, b, m, t);
  }

  method SwapBlocks<T>(a: array<T>, i: nat, j: nat, len: nat)
    requires i + len <= j && j + len <= a.Length
    modifies a
    ensures a[..] == Swapped(old(a[..]), i, j, len)
  {
    hide Swapped;
    ghost var was := a[..];
    var k := 0;
    while k < len
      invariant k <= len
      invariant forall x :: 0 <= x < a.Length ==>
        a[x] == was[if i <= x < i + k then x + (j - i) else if j <= x < j + k then x - (j - i) else x]
    {
      var tem := a[i + k];
      a[i + k] := a[j + k];
      a[j + k] := tem;
      k := k + 1;
    }
    SwappedAt(was, i, j, len);
    assert forall x :: 0 <= x < a.Length ==> a[..][x] == Swapped(was, i, j, len)[x];
  }

  /** Repeated swaps of the shorter block amount to one rotation that keeps the order inside both blocks. */
  method Exchange<T>(a: array<T>, first: nat, last: nat, opt: nat)
    requires first <= last <= opt <= a.Length
    modifies a
    ensures a[..] == Rotated(old(a[..]), first, last, opt)
  {
    hide Rotated, Swapped;
    ghost var goal := Rotated(a[..], first, last, opt);
    var bottom: nat, middle: nat, top: nat := first, last, opt;
    while top > middle && middle > bottom
      invariant bottom <= middle <= top <= a.Length
      invariant Rotated(a[..], bottom, middle, top) == goal
      decreases top - bottom
    {
      if top - middle > middle - bottom {
        var len := middle - bottom;
        RotateByBottom(a[..], bottom, middle, top);
        SwapBlocks(a, bottom, top - len, len);
        top := top - len;
      } else {
        var len := top - middle;
        RotateByTop(a[..], bottom, middle, top);
        SwapBlocks(a, bottom, middle, len);
        bottom := bottom + len;
      }
    }
    RotateNothing(a[..], bottom, middle, top);
  }

  lemma ParseSkip(spec: Spec, given: seq<string>, opt: nat)
    requires opt < |given| && NonOption(given[opt]) && spec.order == Permute
    ensures var p, q := Parse(spec, given[opt..]), Parse(spec, given[opt + 1..]);
      p.options == q.options && p.others == [given[opt]] + q.others && p.reports == q.reports
  {
    assert given[opt..][1..] == given[opt + 1..];
  }

  lemma ParseEnd(spec: Spec, given: seq<string>, opt: nat)
    requires opt < |given| && given[opt] == "--"
    ensures Parse(spec, given[opt..]) == Parsed(given[opt..][..1], given[opt + 1..], [])
  {
    assert given[opt..][1..] == given[opt + 1..];
  }

  lemma ParseNothing(spec: Spec, given: seq<string>)
    ensures Parse(spec, given[|given|..]) == Parsed([], [], [])
    ensures given[|given|..] == []
  {
  }

  /** An element that is not moved ends the scan, or is taken. */
  lemma ParseElement(spec: Spec, given: seq<string>, opt: nat)
    requires opt < |given| && given[opt] != "--" && NonOption(given[opt]) && spec.order != Permute
    ensures Parse(spec, given[opt..]) ==
      if spec.order == RequireOrder then Parsed([], given[opt..], []) else Take(spec, given[opt..], 1, Element(given[opt]))
  {
  }

  lemma ParseOption(spec: Spec, given: seq<string>, opt: nat)
    requires opt < |given| && given[opt] != "--" && !NonOption(given[opt])
    ensures Parse(spec, given[opt..]) == ParseCluster(spec, given[opt][1..], given[opt..])
  {
  }

  lemma TakeParts(spec: Spec, given: seq<string>, opt: nat, k: nat, r: Report)
    requires opt + k <= |given| && k >= 1
    ensures var p, q := Take(spec, given[opt..], k, r), Parse(LaterSpec(spec), given[opt + k..]);
      p.options == given[opt..][..k] + q.options && p.others == q.others && p.reports == [r] + q.reports
  {
    assert given[opt..][k..] == given[opt + k..];
  }

  // ---------------------------------------------------------------- an argument list under permutation

  /** In the list `v`, a rearrangement of `given`: options are in [1, first) and [last, opt), non-options in
      [first, last), and the rest from `opt` on is untouched. What was moved, put together with the parse of
      the rest, is the parse of the whole list. */
  ghost predicate Arranged(v: seq<string>, first: nat, last: nat, opt: nat, given: seq<string>, whole: Parsed, rest: Parsed) {
    && 1 <= first <= last <= opt <= |v| == |given|
    && v[0] == given[0] && v[opt..] == given[opt..]
    && whole.options == v[1..first] + v[last..opt] + rest.options
    && whole.others == v[first..last] + rest.others
  }

  lemma ArrangedRotate(v: seq<string>, first: nat, last: nat, opt: nat, given: seq<string>, whole: Parsed, rest: Parsed)
    requires Arranged(v, first, last, opt, given, whole, rest)
    ensures Arranged(Rotated(v, first, last, opt), first + (opt - last), opt, opt, given, whole, rest)
  {
    var r, b := Rotated(v, first, last, opt), first + (opt - last);
    assert r[0] == v[0] && r[opt..] == v[opt..] && r[1..b] == v[1..first] + v[last..opt] && r[b..opt] == v[first..last]
    by {
      hide Rotated;
      RotatedAt(v, first, last, opt);
    }
    assert r[opt..opt] == [];
  }

  lemma ArrangedMerge(v: seq<string>, first: nat, opt: nat, given: seq<string>, whole: Parsed, rest: Parsed)
    requires Arranged(v, first, first, opt, given, whole, rest)
    ensures Arranged(v, opt, opt, opt, given, whole, rest)
  {
    assert v[1..opt] == v[1..first] + v[first..opt] && v[first..first] == v[opt..opt] == [];
  }

  /** A non-option at `opt` is skipped. */
  lemma ArrangedSkip(v: seq<string>, first: nat, opt: nat, given: seq<string>, whole: Parsed, rest: Parsed, after: Parsed)
    requires Arranged(v, first, opt, opt, given, whole, rest) && opt < |given|
    requires rest.options == after.options && rest.others == [given[opt]] + after.others
    ensures v[opt] == given[opt]
    ensures Arranged(v, first, opt + 1, opt + 1, given, whole, after)
  {
    assert v[opt] == v[opt..][0] && v[opt + 1..] == v[opt..][1..] && given[opt + 1..] == given[opt..][1..];
    assert v[first..opt + 1] == v[first..opt] + [given[opt]];
    assert v[opt..opt] == [] == v[opt + 1..opt + 1];
  }

  /** `k` elements at `opt` are an option and its argument. */
  lemma ArrangedTake(v: seq<string>, first: nat, last: nat, opt: nat, k: nat, given: seq<string>, whole: Parsed,
                     rest: Parsed, after: Parsed)
    requires Arranged(v, first, last, opt, given, whole, rest) && opt + k <= |given|
    requires rest.options == given[opt..][..k] + after.options && rest.others == after.others
    ensures Arranged(v, first, last, opt + k, given, whole, after)
  {
    assert v[opt + k..] == v[opt..][k..] && given[opt + k..] == given[opt..][k..];
    assert v[last..opt + k] == v[last..opt] + v[opt..][..k];
  }

  lemma ArrangedBounds(v: seq<string>, first: nat, last: nat, opt: nat, given: seq<string>, whole: Parsed, rest: Parsed)
    requires Arranged(v, first, last, opt, given, whole, rest)
    ensures 1 <= first <= last <= opt <= |v| == |given|
  {
  }

  lemma ArrangedUntouched(v: seq<string>, first: nat, last: nat, opt: nat, given: seq<string>, whole: Parsed, rest: Parsed)
    requires Arranged(v, first, last, opt, given, whole, rest)
    ensures |v| == |given| && forall i :: opt <= i < |v| ==> v[i] == given[i]
  {
    forall i | opt <= i < |v|
      ensures v[i] == given[i]
    {
      assert v[i] == v[opt..][i - opt];
    }
  }

  lemma ArrangedSame(v: seq<string>, first: nat, last: nat, opt: nat, given: seq<string>, whole: Parsed,
                     rest: Parsed, after: Parsed)
    requires Arranged(v, first, last, opt, given, whole, rest)
    requires rest.options == after.options && rest.others == after.others
    ensures Arranged(v, first, last, opt, given, whole, after)
  {
  }

  /** With no options left to find, the list is in its final order. */
  lemma ArrangedDone(v: seq<string>, first: nat, opt: nat, given: seq<string>, whole: Parsed, rest: Parsed)
    requires Arranged(v, first, opt, opt, given, whole, rest)
    requires rest.options == [] && rest.others == given[opt..]
    ensures v == [given[0]] + whole.options + whole.others
    ensures first == 1 + |whole.options|
  {
    assert v == [v[0]] + v[1..first] + v[first..opt] + v[opt..];
    assert v[opt..opt] == [];
  }

  // ---------------------------------------------------------------- the scan

  datatype Outcome = Finished | Reported(r: Report)

  /** `nextchar` holds the rest of the option element being scanned, empty when there is none. `given` is
      the argument list as it was. */
  class Scanner {
    const argv: array<string>
    const optstring: string
    const posix: bool
    var initialized: bool
    var optind: nat
    var firstNonopt: nat
    var lastNonopt: nat
    var nextchar: string
    ghost const given: seq<string>

    /** What the next call goes by. */
    ghost function Options(): Spec
      reads this
    {
      var first := FirstSpec(optstring, posix);
      if initialized then LaterSpec(first) else first
    }

    /** The parse of what is still to be scanned. */
    ghost function Pending(): Parsed
      reads this
      requires optind <= |given| && (nextchar != "" ==> optind < |given|)
    {
      if nextchar == "" then Parse(Options(), given[optind..]) else ParseCluster(Options(), nextchar, given[optind..])
    }

    ghost function Whole(): Parsed
      reads this
      requires given != []
    {
      Parse(FirstSpec(optstring, posix), given[1..])
    }

    ghost predicate Valid()
      reads this, argv
    {
      && 1 <= optind <= |given|
      && (nextchar != "" ==> optind < |given|)
      && Arranged(argv[..], firstNonopt, lastNonopt, optind, given, Whole(), Pending())
      && (OrderOf(optstring, posix) != Permute ==> firstNonopt == lastNonopt)
    }

    /** All scanned: options first, non-options last, each in their original order, with `optind` at the first of
        the latter. */
    ghost predicate Done()
      reads this, argv
    {
      && |given| >= 1
      && argv[..] == [given[0]] + Whole().options + Whole().others
      && optind == 1 + |Whole().options|
    }

    constructor (argv: array<string>, optstring: string, posix: bool)
      requires argv.Length >= 1 && !WantsLongOptions(optstring)
      ensures Valid() && this.argv == argv && this.optstring == optstring && this.posix == posix && given == argv[..]
      ensures optind == 1 && nextchar == "" && !initialized
    {
      this.argv, this.optstring, this.posix, this.given, initialized := argv, optstring, posix, argv[..], false;
      optind, firstNonopt, lastNonopt := 1, 1, 1;
      nextchar := "";
    }

    /** Moves the options found since the last non-option in front of the skipped non-options. */
    method Settle()
      requires Valid() && nextchar == "" && OrderOf(optstring, posix) == Permute
      modifies this`firstNonopt, this`lastNonopt, argv
      ensures Valid() && lastNonopt == optind
    {
      hide Arranged, Rotated, Parse, ParseCluster;
      ghost var v, rest := argv[..], Pending();
      ArrangedBounds(v, firstNonopt, lastNonopt, optind, given, Whole(), rest);
      if firstNonopt != lastNonopt && lastNonopt != optind {
        ArrangedRotate(v, firstNonopt, lastNonopt, optind, given, Whole(), rest);
        Exchange(argv, firstNonopt, lastNonopt, optind);
        firstNonopt := firstNonopt + (optind - lastNonopt);
      } else if lastNonopt != optind {
        ArrangedMerge(v, firstNonopt, optind, given, Whole(), rest);
        firstNonopt := optind;
      }
      lastNonopt := optind;
    }

    /** Extends the range of skipped non-options. */
    method SkipNonOptions()
      requires Valid() && nextchar == "" && lastNonopt == optind && OrderOf(optstring, posix) == Permute
      modifies this`lastNonopt, this`optind
      ensures Valid() && lastNonopt == optind && optind >= old(optind)
      ensures optind < |given| ==> argv[optind] == given[optind] && !NonOption(given[optind])
      ensures Pending().reports == old(Pending()).reports
    {
      hide Arranged, Parse, ParseCluster;
      ArrangedBounds(argv[..], firstNonopt, lastNonopt, optind, given, Whole(), Pending());
      while optind < argv.Length && NonOption(argv[optind])
        invariant argv.Length == |given|
        invariant Valid() && lastNonopt == optind && optind >= old(optind)
        invariant Pending().reports == old(Pending()).reports
      {
        ghost var after := Parse(Options(), given[optind + 1..]);
        ArrangedUntouched(argv[..], firstNonopt, lastNonopt, optind, given, Whole(), Pending());
        ParseSkip(Options(), given, optind);
        ArrangedSkip(argv[..], firstNonopt, optind, given, Whole(), Pending(), after);
        optind := optind + 1;
        lastNonopt := optind;
      }
      ArrangedUntouched(argv[..], firstNonopt, lastNonopt, optind, given, Whole(), Pending());
    }

    /** Skips "--", moves it before the skipped non-options, and takes all the rest as non-options. */
    method EndOfOptions()
      requires Valid() && nextchar == "" && optind < |given| && given[optind] == "--"
      requires firstNonopt == lastNonopt || lastNonopt == optind
      modifies this, argv
      ensures optind == lastNonopt == argv.Length && firstNonopt == 1 + |Whole().options|
      ensures argv[..] == [given[0]] + Whole().options + Whole().others
      ensures old(Pending()).reports == []
    {
      hide Arranged, Parse, ParseCluster, Rotated;
      ghost var whole, after := Whole(), Parsed([], given[optind + 1..], []);
      ParseEnd(Options(), given, optind);
      ArrangedTake(argv[..], firstNonopt, lastNonopt, optind, 1, given, whole, Pending(), after);
      optind := optind + 1;
      ArrangedBounds(argv[..], firstNonopt, lastNonopt, optind, given, whole, after);
      if firstNonopt != lastNonopt && lastNonopt != optind {
        ArrangedRotate(argv[..], firstNonopt, lastNonopt, optind, given, whole, after);
        Exchange(argv, firstNonopt, lastNonopt, optind);
        firstNonopt := firstNonopt + (optind - lastNonopt);
      } else if firstNonopt == lastNonopt {
        ArrangedMerge(argv[..], firstNonopt, optind, given, whole, after);
        firstNonopt := optind;
      }
      ArrangedDone(argv[..], firstNonopt, optind, given, whole, after);
      lastNonopt := argv.Length;
      optind := argv.Length;
    }

    /** Nothing is left to be found: the list is in its final order already. */
    lemma Complete()
      requires Valid() && nextchar == ""
      requires firstNonopt == lastNonopt || lastNonopt == optind
      requires Pending().options == [] && Pending().others == given[optind..]
      ensures argv[..] == [given[0]] + Whole().options + Whole().others
      ensures 1 + |Whole().options| == if firstNonopt != lastNonopt then firstNonopt else optind
    {
      hide Arranged, Parse;
      if firstNonopt == lastNonopt {
        ArrangedMerge(argv[..], firstNonopt, optind, given, Whole(), Pending());
        ArrangedDone(argv[..], optind, optind, given, Whole(), Pending());
      } else {
        ArrangedDone(argv[..], firstNonopt, optind, given, Whole(), Pending());
      }
    }

    /** Takes `k` elements as an option and its argument. */
    method TakeElements(k: nat, r: Report)
      requires 1 <= k && optind + k <= |given| && 1 <= optind
      requires Arranged(argv[..], firstNonopt, lastNonopt, optind, given, Whole(), Take(Options(), given[optind..], k, r))
      modifies this`optind, this`nextchar, this`initialized
      requires OrderOf(optstring, posix) != Permute ==> firstNonopt == lastNonopt
      ensures Valid() && nextchar == "" && optind == old(optind) + k
      ensures old(Take(Options(), given[optind..], k, r)).reports == [r] + Pending().reports
    {
      hide Parse, ParseCluster, Take;
      TakeParts(Options(), given, optind, k, r);
      ArrangedTake(argv[..], firstNonopt, lastNonopt, optind, k, given, Whole(), Take(Options(), given[optind..], k, r),
                   Parse(LaterSpec(Options()), given[optind + k..]));
      initialized := true;
      optind := optind + k;
      nextchar := "";
    }

    /** The next character of the option element being scanned. */
    method ScanCharacter() returns (r: Report)
      requires Valid() && nextchar != ""
      modifies this`optind, this`nextchar, this`initialized
      ensures Valid()
      ensures old(Pending()).reports == [r] + Pending().reports
    {
      hide Parse, Take, Arranged, KindOf;
      var c, rest := nextchar[0], nextchar[1..];
      ghost var args := given[optind..];
      ArrangedUntouched(argv[..], firstNonopt, lastNonopt, optind, given, Whole(), Pending());
      var kind := KindOf(if initialized then optstring else Stripped(optstring), c);
      if kind == Required {
        if rest != "" {
          r := WithArgument(c, rest);
          TakeElements(1, r);
        } else if optind + 1 == argv.Length {
          r := MissingArgument(c);
          TakeElements(1, r);
        } else {
          r := WithArgument(c, argv[optind + 1]);
          TakeElements(2, r);
        }
      } else if kind == Optional {
        r := if rest != "" then WithArgument(c, rest) else Flag(c);
        TakeElements(1, r);
      } else {
        r := if kind == Invalid then Unknown(c) else Flag(c);
        if rest == "" {
          TakeElements(1, r);
        } else {
          ArrangedSame(argv[..], firstNonopt, lastNonopt, optind, given, Whole(), Pending(),
                       ParseCluster(LaterSpec(Options()), rest, args));
          nextchar := rest;
          initialized := true;
        }
      }
    }

    /** One call of getopt: the next option or element, or the end, with `optind` at the first non-option. */
    method Next() returns (o: Outcome)
      requires Valid()
      modifies this, argv
      ensures o.Reported? ==> Valid() && old(Pending()).reports == [o.r] + Pending().reports
      ensures o.Finished? ==> Done() && old(Pending()).reports == []
    {
      hide Arranged, Parse, ParseCluster, Take;
      ArrangedBounds(argv[..], firstNonopt, lastNonopt, optind, given, Whole(), Pending());
      if nextchar == "" {
        if OrderOf(optstring, posix) == Permute {
          Settle();
          SkipNonOptions();
        }
        ArrangedUntouched(argv[..], firstNonopt, lastNonopt, optind, given, Whole(), Pending());
        if optind != argv.Length && argv[optind] == "--" {
          EndOfOptions();
        } else if optind == argv.Length {
          ParseNothing(Options(), given);
          Complete();
        }
        if optind == argv.Length {
          if firstNonopt != lastNonopt {
            optind := firstNonopt;
          }
          return Finished;
        }
        if NonOption(argv[optind]) {
          ParseElement(Options(), given, optind);
          if OrderOf(optstring, posix) == RequireOrder {
            Complete();
            return Finished;
          }
          var r := Element(argv[optind]);
          TakeElements(1, r);
          return Reported(r);
        }
        ParseOption(Options(), given, optind);
        nextchar := argv[optind][1..];
      }
      var r := ScanCharacter();
      return Reported(r);
    }
  }

  lemma GivenAgain(given: seq<string>, spec: Spec)
    requires given != [] && spec.order != Permute
    ensures var p := Parse(spec, given[1..]); [given[0]] + p.options + p.others == given
  {
    var p := Parse(spec, given[1..]);
    OrderedScansMoveNothing(spec, given[1..]);
    assert [given[0]] + p.options + p.others == [given[0]] + (p.options + p.others);
  }

  /** A whole scan terminates. It reports what a scan from left to right reports, and leaves argv with the
      options and their arguments first and the non-options last, each in their original order, and the index
      of the first non-option. Only permuting moves anything. */
  method ScanAll(argv: array<string>, optstring: string, posix: bool) returns (reports: seq<Report>, optind: nat)
    requires argv.Length >= 1 && !WantsLongOptions(optstring)
    modifies argv
    ensures var whole := Parse(FirstSpec(optstring, posix), old(argv[1..]));
      && reports == whole.reports
      && argv[..] == [old(argv[0])] + whole.options + whole.others
      && optind == 1 + |whole.options|
    ensures OrderOf(optstring, posix) != Permute ==> argv[..] == old(argv[..])
  {
    hide Parse;
    var s := new Scanner(argv, optstring, posix);
    ghost var all := s.Pending().reports;
    assert s.given[1..] == argv[1..];
    reports := [];
    var more := true;
    while more
      invariant s.argv == argv && s.optstring == optstring && s.posix == posix && s.given == old(argv[..])
      invariant more ==> s.Valid() && reports + s.Pending().reports == all
      invariant !more ==> s.Done() && reports == all
      decreases if more then 1 + |s.Pending().reports| else 0
    {
      var o := s.Next();
      if o.Reported? {
        reports := reports + [o.r];
      } else {
        more := false;
      }
    }
    optind := s.optind;
    if OrderOf(optstring, posix) != Permute {
      GivenAgain(s.given, FirstSpec(optstring, posix));
    }
  }
}
