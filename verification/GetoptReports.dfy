/** What a scan for options reports, by the characters of the option string. */
module GetoptReports {
  import opened Getopt

  // ---------------------------------------------------------------- the option string

  /** The first place of a character. */
  predicate FirstAt(o: string, c: char, k: nat) {
    k < |o| && o[k] == c && forall j :: 0 <= j < k ==> o[j] != c
  }

  /** Every character but the colon is an option. */
  predicate IsOption(o: string, c: char) {
    c in o && c != ':'
  }

  /** A colon behind the first place of the character: it has an argument. */
  ghost predicate HasColon(o: string, c: char) {
    exists k: nat :: FirstAt(o, c, k) && k + 1 < |o| && o[k + 1] == ':'
  }

  /** Two colons: it may have one. */
  ghost predicate HasTwoColons(o: string, c: char) {
    exists k: nat :: FirstAt(o, c, k) && k + 2 < |o| && o[k + 1] == ':' && o[k + 2] == ':'
  }

  lemma FirstIndexIs(o: string, c: char)
    ensures c in o <==> FirstIndex(o, c) < |o|
    ensures forall k: nat :: FirstAt(o, c, k) <==> k == FirstIndex(o, c) < |o|
  {
  }

  lemma KindIs(o: string, c: char)
    ensures KindOf(o, c) == Invalid <==> !IsOption(o, c)
    ensures KindOf(o, c) == Optional <==> IsOption(o, c) && HasTwoColons(o, c)
    ensures KindOf(o, c) == Required <==> IsOption(o, c) && HasColon(o, c) && !HasTwoColons(o, c)
    ensures KindOf(o, c) == NoArgument <==> IsOption(o, c) && !HasColon(o, c)
  {
    hide FirstIndex;
    FirstIndexIs(o, c);
    var k := FirstIndex(o, c);
    if k < |o| {
      assert FirstAt(o, c, k);
    }
  }

  // ---------------------------------------------------------------- what reports say

  /** What a report says about the option string. */
  ghost predicate Says(o: string, order: Order, r: Report) {
    match r
    case Flag(c) => IsOption(o, c) && (!HasColon(o, c) || HasTwoColons(o, c))
    case WithArgument(c, _) => IsOption(o, c) && HasColon(o, c)
    case MissingArgument(c) => IsOption(o, c) && HasColon(o, c) && !HasTwoColons(o, c)
    case Unknown(c) => !IsOption(o, c)
    case Element(a) => order == ReturnInOrder && (|a| < 2 || a[0] != '-')
  }

  ghost predicate AllSay(spec: Spec, rs: seq<Report>) {
    forall i :: 0 <= i < |rs| ==> Says(if i == 0 then spec.now else spec.later, spec.order, rs[i])
  }

  lemma FirstSays(spec: Spec, r: Report, rs: seq<Report>)
    requires Says(spec.now, spec.order, r) && AllSay(LaterSpec(spec), rs)
    ensures AllSay(spec, [r] + rs)
  {
    hide Says;
    var all := [r] + rs;
    forall i | 0 <= i < |all|
      ensures Says(if i == 0 then spec.now else spec.later, spec.order, all[i])
    {
      assert i > 0 ==> all[i] == rs[i - 1];
    }
  }

  /** Every report says what is so: options are reported as such, with an argument where they have one, and other
      characters as unknown. */
  lemma {:induction false} ReportsAreTrue(spec: Spec, args: seq<string>)
    ensures AllSay(spec, Parse(spec, args).reports)
    decreases |args|, 1, 0
  {
    hide AllSay, Says;
    NothingSaid(spec);
    if args != [] && args[0] != "--" {
      if !NonOption(args[0]) {
        ClusterIsTrue(spec, args[0][1..], args);
      } else if spec.order == Permute {
        ReportsAreTrue(spec, args[1..]);
      } else if spec.order == ReturnInOrder {
        ReportsAreTrue(LaterSpec(spec), args[1..]);
        ElementIsTrue(spec, args[0]);
        FirstSays(spec, Element(args[0]), Parse(LaterSpec(spec), args[1..]).reports);
      }
    }
  }

  lemma NothingSaid(spec: Spec)
    ensures AllSay(spec, [])
  {
  }

  lemma ElementIsTrue(spec: Spec, a: string)
    requires NonOption(a) && spec.order == ReturnInOrder
    ensures Says(spec.now, spec.order, Element(a))
  {
  }

  lemma {:induction false} ClusterIsTrue(spec: Spec, chars: string, args: seq<string>)
    requires chars != "" && args != []
    ensures AllSay(spec, ParseCluster(spec, chars, args).reports)
    decreases |args|, 0, |chars|
  {
    hide AllSay, KindOf, Parse, LaterSpec, IsOption, HasColon, HasTwoColons;
    var c, rest := chars[0], chars[1..];
    var kind := KindOf(spec.now, c);
    KindIs(spec.now, c);
    if (kind == Invalid || kind == NoArgument) && rest != "" {
      ClusterIsTrue(LaterSpec(spec), rest, args);
      FirstSays(spec, if kind == Invalid then Unknown(c) else Flag(c), ParseCluster(LaterSpec(spec), rest, args).reports);
    } else {
      var k := if kind == Required && rest == "" && |args| > 1 then 2 else 1;
      ReportsAreTrue(LaterSpec(spec), args[k..]);
      var r :=
        match kind
        case Invalid => Unknown(c)
        case NoArgument => Flag(c)
        case Optional => if rest != "" then WithArgument(c, rest) else Flag(c)
        case Required => if rest != "" then WithArgument(c, rest)
                         else if |args| > 1 then WithArgument(c, args[1]) else MissingArgument(c);
      FirstSays(spec, r, Parse(LaterSpec(spec), args[k..]).reports);
    }
  }

  // ---------------------------------------------------------------- writing options and reading them

  /** The end of an element: nothing more, an option with its argument in the same element or in the next one, or an
      option that could have an argument and has none. */
  datatype Last = NoMore | Attached(c: char, arg: string) | Separate(c: char, arg: string) | Without(c: char)

  /** An element of flags that ends so, or one that is no option. */
  datatype Part = Options(flags: string, last: Last) | Other(a: string)

  ghost predicate Allowed(o: string, p: Part) {
    match p
    case Other(a) => |a| < 2 || a[0] != '-'
    case Options(flags, last) =>
      && (forall c :: c in flags ==> IsOption(o, c) && !HasColon(o, c))
      && match last
         case NoMore => flags != ""
         case Attached(c, arg) => IsOption(o, c) && HasColon(o, c) && arg != ""
         case Separate(c, _) => IsOption(o, c) && HasColon(o, c) && !HasTwoColons(o, c)
         case Without(c) => IsOption(o, c) && HasTwoColons(o, c)
  }

  function LastText(last: Last): string {
    match last
    case NoMore => ""
    case Attached(c, arg) => [c] + arg
    case Separate(c, _) => [c]
    case Without(c) => [c]
  }

  /** The elements that a part is written as. */
  function Elements(p: Part): seq<string> {
    match p
    case Other(a) => [a]
    case Options(flags, last) =>
      ["-" + (flags + LastText(last))] + if last.Separate? then [last.arg] else []
  }

  function Argv(ps: seq<Part>): seq<string> {
    if ps == [] then [] else Elements(ps[0]) + Argv(ps[1..])
  }

  function FlagReports(flags: string): seq<Report> {
    if flags == "" then [] else [Flag(flags[0])] + FlagReports(flags[1..])
  }

  function LastReports(last: Last): seq<Report> {
    match last
    case NoMore => []
    case Attached(c, arg) => [WithArgument(c, arg)]
    case Separate(c, arg) => [WithArgument(c, arg)]
    case Without(c) => [Flag(c)]
  }

  /** The list of what was written. */
  function Listed(order: Order, ps: seq<Part>): seq<Report> {
    if ps == [] then [] else
      (match ps[0]
       case Other(a) => if order == ReturnInOrder then [Element(a)] else []
       case Options(flags, last) => FlagReports(flags) + LastReports(last))
      + Listed(order, ps[1..])
  }

  function OptionElements(order: Order, ps: seq<Part>): seq<string> {
    if ps == [] then [] else
      (if ps[0].Other? && order == Permute then [] else Elements(ps[0])) + OptionElements(order, ps[1..])
  }

  function OtherElements(order: Order, ps: seq<Part>): seq<string> {
    if ps == [] then [] else
      (if ps[0].Other? && order == Permute then Elements(ps[0]) else []) + OtherElements(order, ps[1..])
  }

  /** Parts as the option string of this report and of the later ones allows them, none of them the double dash that ends
      the options, and no other elements where they would end the scan. */
  ghost predicate Writable(spec: Spec, p: Part) {
    && Allowed(spec.now, p) && Allowed(spec.later, p)
    && (p.Options? ==> p.flags + LastText(p.last) != "-")
    && (p.Other? ==> spec.order != RequireOrder)
  }

  /** What may stand behind the parts: nothing, a double dash, or where order is required an element that ends the scan. */
  predicate Behind(order: Order, rest: seq<string>) {
    rest == [] || rest[0] == "--" || (order == RequireOrder && (|rest[0]| < 2 || rest[0][0] != '-'))
  }

  lemma LaterIsLater(spec: Spec)
    ensures LaterSpec(LaterSpec(spec)) == LaterSpec(spec) && LaterSpec(spec).order == spec.order
  {
  }

  lemma WritableLater(spec: Spec, ps: seq<Part>)
    requires forall p :: p in ps ==> Writable(spec, p)
    ensures forall p :: p in ps ==> Writable(LaterSpec(spec), p)
  {
    hide Allowed;
  }

  /** The last option of an element, with what it takes. */
  lemma LastRead(spec: Spec, last: Last, args: seq<string>)
    requires last != NoMore && Allowed(spec.now, Options("", last))
    requires args != [] && (last.Separate? ==> |args| >= 2 && args[1] == last.arg)
    ensures LastText(last) != ""
    ensures ParseCluster(spec, LastText(last), args)
      == Take(spec, args, if last.Separate? then 2 else 1, LastReports(last)[0])
    ensures |LastReports(last)| == 1
  {
    hide KindOf, Take, IsOption, HasColon, HasTwoColons;
    KindIs(spec.now, last.c);
    TwoColonsAreOne(spec.now, last.c);
    assert LastText(last)[0] == last.c;
    if last.Attached? {
      assert LastText(last)[1..] == last.arg;
    }
  }

  lemma TwoColonsAreOne(o: string, c: char)
    ensures HasTwoColons(o, c) ==> HasColon(o, c)
  {
  }

  /** All of an element. */
  lemma {:induction false} ClusterRead(spec: Spec, flags: string, last: Last, args: seq<string>)
    requires Allowed(spec.now, Options(flags, last)) && Allowed(spec.later, Options(flags, last))
    requires args != [] && (last.Separate? ==> |args| >= 2 && args[1] == last.arg)
    ensures flags + LastText(last) != ""
    ensures var p, n := ParseCluster(spec, flags + LastText(last), args), if last.Separate? then 2 else 1;
      var q := Parse(LaterSpec(spec), args[n..]);
      && p.options == args[..n] + q.options && p.others == q.others
      && p.reports == FlagReports(flags) + LastReports(last) + q.reports
    decreases |flags|
  {
    hide ParseCluster, Take, Parse, Allowed, LastText, LastReports, FlagReports;
    if flags == "" {
      LastOnly(spec, last, args);
    } else {
      FlagFirst(spec, flags, last);
      if flags[1..] == "" && last == NoMore {
        LoneFlag(spec, flags, args);
      } else {
        ClusterRead(LaterSpec(spec), flags[1..], last, args);
        LaterIsLater(spec);
        FlagThen(spec, flags, last, args);
      }
    }
  }

  lemma LastOnly(spec: Spec, last: Last, args: seq<string>)
    requires Allowed(spec.now, Options("", last))
    requires args != [] && (last.Separate? ==> |args| >= 2 && args[1] == last.arg)
    ensures "" + LastText(last) != ""
    ensures var p, n := ParseCluster(spec, "" + LastText(last), args), if last.Separate? then 2 else 1;
      var q := Parse(LaterSpec(spec), args[n..]);
      && p.options == args[..n] + q.options && p.others == q.others
      && p.reports == FlagReports("") + LastReports(last) + q.reports
  {
    hide ParseCluster, Parse, KindOf, IsOption, HasColon, HasTwoColons;
    LastRead(spec, last, args);
    assert "" + LastText(last) == LastText(last);
    assert FlagReports("") + LastReports(last) == LastReports(last) == [LastReports(last)[0]];
  }

  /** The first of some flags, and what is left to be allowed. */
  lemma FlagFirst(spec: Spec, flags: string, last: Last)
    requires flags != "" && Allowed(spec.now, Options(flags, last)) && Allowed(spec.later, Options(flags, last))
    ensures KindOf(spec.now, flags[0]) == NoArgument
    ensures flags[1..] != "" || last != NoMore ==>
      Allowed(spec.now, Options(flags[1..], last)) && Allowed(spec.later, Options(flags[1..], last))
    ensures var text := flags + LastText(last); text[0] == flags[0] && text[1..] == flags[1..] + LastText(last)
    ensures FlagReports(flags) == [Flag(flags[0])] + FlagReports(flags[1..])
  {
    hide KindOf, Allowed, LastText, IsOption, HasColon, HasTwoColons;
    FlagAllowed(spec.now, flags, last);
    FlagAllowed(spec.later, flags, last);
    KindIs(spec.now, flags[0]);
    FirstOf(flags, LastText(last));
  }

  lemma FirstOf(flags: string, more: string)
    requires flags != ""
    ensures (flags + more)[0] == flags[0] && (flags + more)[1..] == flags[1..] + more
  {
  }

  lemma FlagAllowed(o: string, flags: string, last: Last)
    requires flags != "" && Allowed(o, Options(flags, last))
    ensures IsOption(o, flags[0]) && !HasColon(o, flags[0])
    ensures flags[1..] != "" || last != NoMore ==> Allowed(o, Options(flags[1..], last))
  {
    hide IsOption, HasColon, HasTwoColons;
    assert flags[0] in flags && forall x :: x in flags[1..] ==> x in flags;
  }

  lemma LoneFlag(spec: Spec, flags: string, args: seq<string>)
    requires flags != "" && flags[1..] == "" && KindOf(spec.now, flags[0]) == NoArgument && args != []
    ensures flags + LastText(NoMore) != ""
    ensures var p := ParseCluster(spec, flags + LastText(NoMore), args);
      var q := Parse(LaterSpec(spec), args[1..]);
      && p.options == args[..1] + q.options && p.others == q.others
      && p.reports == FlagReports(flags) + LastReports(NoMore) + q.reports
  {
    hide KindOf, Parse;
    assert flags + LastText(NoMore) == flags;
    assert FlagReports(flags) + [] == FlagReports(flags) == [Flag(flags[0])];
  }

  lemma FlagThen(spec: Spec, flags: string, last: Last, args: seq<string>)
    requires flags != "" && flags[1..] + LastText(last) != "" && KindOf(spec.now, flags[0]) == NoArgument && args != []
    ensures flags + LastText(last) != ""
    ensures var p, q := ParseCluster(spec, flags + LastText(last), args),
                        ParseCluster(LaterSpec(spec), flags[1..] + LastText(last), args);
      p == q.(reports := [Flag(flags[0])] + q.reports)
  {
    hide KindOf, LastText;
    var text := flags + LastText(last);
    assert text[0] == flags[0] && text[1..] == flags[1..] + LastText(last);
  }

  lemma OptionsAreOptions(p: Part)
    requires p.Options? && p.flags + LastText(p.last) != "" && p.flags + LastText(p.last) != "-"
    ensures var e := Elements(p)[0]; e != "--" && !NonOption(e) && e[1..] == p.flags + LastText(p.last)
  {
    var e := Elements(p)[0];
    assert e[1..] == p.flags + LastText(p.last);
    assert "--"[1..] == "-";
  }

  /** Whatever is written as the option string allows is reported as it was written, in its order, with its arguments. */
  lemma {:induction false} WrittenIsReported(spec: Spec, ps: seq<Part>, rest: seq<string>)
    requires (forall p :: p in ps ==> Writable(spec, p)) && Behind(spec.order, rest)
    ensures var p := Parse(spec, Argv(ps) + rest);
      var ended := rest != [] && rest[0] == "--";
      && p.reports == Listed(spec.order, ps)
      && p.options == OptionElements(spec.order, ps) + (if ended then ["--"] else [])
      && p.others == OtherElements(spec.order, ps) + (if ended then rest[1..] else rest)
    decreases |ps|
  {
    hide Parse, Writable, Behind, Elements, Allowed, Listed, OptionElements, OtherElements, Argv;
    if ps == [] {
      NothingWritten(spec, rest);
    } else {
      assert ps[0] in ps && forall p :: p in ps[1..] ==> p in ps;
      WritableLater(spec, ps);
      FirstPart(spec.order, ps);
      PartWritten(spec, ps[0], Argv(ps[1..]) + rest);
      assert Elements(ps[0]) + Argv(ps[1..]) + rest == Elements(ps[0]) + (Argv(ps[1..]) + rest);
      LaterIsLater(spec);
      WrittenIsReported(if ps[0].Other? && spec.order == Permute then spec else LaterSpec(spec), ps[1..], rest);
    }
  }

  lemma FirstPart(order: Order, ps: seq<Part>)
    requires ps != []
    ensures Argv(ps) == Elements(ps[0]) + Argv(ps[1..])
    ensures Listed(order, ps) == Listed(order, [ps[0]]) + Listed(order, ps[1..])
    ensures var moved := ps[0].Other? && order == Permute;
      && OptionElements(order, ps) == (if moved then [] else Elements(ps[0])) + OptionElements(order, ps[1..])
      && OtherElements(order, ps) == (if moved then Elements(ps[0]) else []) + OtherElements(order, ps[1..])
  {
    hide FlagReports, LastReports, Elements;
    assert [ps[0]][1..] == [] && Listed(order, []) == [];
  }

  lemma NothingWritten(spec: Spec, rest: seq<string>)
    requires Behind(spec.order, rest)
    ensures var p := Parse(spec, Argv([]) + rest);
      var ended := rest != [] && rest[0] == "--";
      && p.reports == Listed(spec.order, [])
      && p.options == OptionElements(spec.order, []) + (if ended then ["--"] else [])
      && p.others == OtherElements(spec.order, []) + (if ended then rest[1..] else rest)
  {
    assert Argv([]) + rest == rest && OptionElements(spec.order, []) == [] == OtherElements(spec.order, []);
    assert rest != [] && rest[0] == "--" ==> rest[..1] == ["--"];
  }

  lemma OtherWritten(spec: Spec, a: string, args: seq<string>, more: seq<string>)
    requires NonOption(a) && spec.order != RequireOrder && args == [a] + more
    ensures var p := Parse(spec, args);
      var moved := spec.order == Permute;
      var q := Parse(if moved then spec else LaterSpec(spec), more);
      && p.reports == (if moved then [] else [Element(a)]) + q.reports
      && p.options == (if moved then [] else [a]) + q.options
      && p.others == (if moved then [a] else []) + q.others
  {
    assert args[0] == a && args[1..] == more && a != "--";
    var q := Parse(if spec.order == Permute then spec else LaterSpec(spec), more);
    assert [] + q.reports == q.reports && [] + q.options == q.options && [] + q.others == q.others;
  }

  /** One part, and what follows. */
  lemma PartWritten(spec: Spec, part: Part, more: seq<string>)
    requires Writable(spec, part)
    ensures var p := Parse(spec, Elements(part) + more);
      var moved := part.Other? && spec.order == Permute;
      var q := Parse(if moved then spec else LaterSpec(spec), more);
      && p.reports == Listed(spec.order, [part]) + q.reports
      && p.options == (if moved then [] else Elements(part)) + q.options
      && p.others == (if moved then Elements(part) else []) + q.others
  {
    hide KindOf, IsOption, HasColon, HasTwoColons, Parse, ParseCluster;
    var args := Elements(part) + more;
    assert [part][1..] == [] && Listed(spec.order, []) == [];
    match part
    case Other(a) =>
      assert args == [a] + more;
      OtherWritten(spec, a, args, more);
    case Options(flags, last) =>
      var n := if last.Separate? then 2 else 1;
      OptionsAreOptions(part);
      assert args[0] == Elements(part)[0] && args[n..] == more && args[..n] == Elements(part);
      ClusterRead(spec, flags, last, args);
      ClusterIsParsed(spec, args);
      var q := Parse(LaterSpec(spec), more);
      assert [] + q.others == q.others;
      assert Listed(spec.order, [part]) == FlagReports(flags) + LastReports(last);
  }

  lemma ClusterIsParsed(spec: Spec, args: seq<string>)
    requires args != [] && args[0] != "--" && !NonOption(args[0])
    ensures Parse(spec, args) == ParseCluster(spec, args[0][1..], args)
  {
  }

  // ---------------------------------------------------------------- from the first call on

  /** Dropping the first character of the option string changes nothing for the others. */
  lemma StrippedIsSame(o: string, c: char)
    requires o != "" && c != o[0]
    ensures IsOption(o[1..], c) <==> IsOption(o, c)
    ensures HasColon(o[1..], c) <==> HasColon(o, c)
    ensures HasTwoColons(o[1..], c) <==> HasTwoColons(o, c)
  {
    var t := o[1..];
    assert forall k: nat :: k < |t| ==> t[k] == o[k + 1];
    forall k: nat | FirstAt(t, c, k) ensures FirstAt(o, c, k + 1) {
      assert forall j :: 0 <= j < k + 1 ==> j == 0 || o[j] == t[j - 1];
    }
    forall k: nat | FirstAt(o, c, k) ensures k > 0 && FirstAt(t, c, k - 1) {
    }
  }

  predicate Mentions(p: Part, c: char) {
    p.Options? && (c in p.flags || (p.last != NoMore && p.last.c == c))
  }

  /** What the option string allows in the first call, it allows in all, but for its own first character. */
  lemma AllowedThroughout(optstring: string, posix: bool, p: Part)
    requires Allowed(Stripped(optstring), p)
    requires optstring != "" && (optstring[0] == '-' || optstring[0] == '+') ==> !Mentions(p, optstring[0])
    ensures Allowed(FirstSpec(optstring, posix).now, p) && Allowed(FirstSpec(optstring, posix).later, p)
  {
    hide IsOption, HasColon, HasTwoColons;
    if Stripped(optstring) != optstring && p.Options? {
      assert Stripped(optstring) == optstring[1..];
      forall c | Mentions(p, c)
        ensures IsOption(optstring[1..], c) <==> IsOption(optstring, c)
        ensures HasColon(optstring[1..], c) <==> HasColon(optstring, c)
        ensures HasTwoColons(optstring[1..], c) <==> HasTwoColons(optstring, c)
      {
        StrippedIsSame(optstring, c);
      }
      assert forall c :: c in p.flags ==> Mentions(p, c);
      assert p.last != NoMore ==> Mentions(p, p.last.c);
    }
  }
}
