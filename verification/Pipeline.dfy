/** From analyze_event through an analyzer's queue to its loop() function, in dragonfly-lib.c and msgqueue.c. */
module Pipeline {
  import opened Bytes
  import opened LuaValues
  import opened MsgPack
  import opened MsgPackRoundTrip
  import opened MsgPackStream
  import opened MsgPackCursor
  import opened Options

  const MAX_MESSAGE_SIZE := 32768
  const MAX_BUFFER_SIZE := 32768

  // ---------------------------------------------------------------- framing

  /** A C int as it stands in memory on a little-endian host. */
  function NativeInt(n: nat): (s: bytes)
    ensures |s| == 4
  {
    [n % 256, n / 0x100 % 256, n / 0x1_0000 % 256, n / 0x100_0000 % 256]
  }

  function ReadNativeInt(s: bytes): nat
    requires |s| >= 4
  {
    s[0] as int + s[1] as int * 0x100 + s[2] as int * 0x1_0000 + s[3] as int * 0x100_0000
  }

  lemma NativeIntBack(n: nat, r: bytes)
    requires n < 0x1_0000_0000
    ensures ReadNativeInt(NativeInt(n) + r) == n && (NativeInt(n) + r)[4..] == r
  {
    var a, b := n / 0x100, n / 0x1_0000;
    assert a / 256 == b && b / 256 == n / 0x100_0000;
  }

  function Cut(m: bytes): bytes {
    if |m| > MAX_MESSAGE_SIZE then m[..MAX_MESSAGE_SIZE] else m
  }

  function Frame(m: bytes): bytes {
    NativeInt(|m|) + m
  }

  function Frames(ms: seq<bytes>): bytes {
    if ms == [] then [] else Frame(ms[0]) + Frames(ms[1..])
  }

  lemma {:induction false} FramesAppend(ms: seq<bytes>, m: bytes)
    ensures Frames(ms + [m]) == Frames(ms) + Frame(m)
  {
    hide Frame;
    if ms == [] {
      assert ms + [m] == [m] && [m][1..] == [] && Frame(m) + [] == [] + Frame(m);
    } else {
      FramesAppend(ms[1..], m);
      assert (ms + [m])[1..] == ms[1..] + [m];
      Associative(Frame(ms[0]), Frames(ms[1..]), Frame(m));
    }
  }

  // ---------------------------------------------------------------- names

  function UpToNul(s: bytes): bytes {
    if s == [] || s[0] == 0 then [] else [s[0]] + UpToNul(s[1..])
  }

  function Lower(c: byte): byte {
    if 65 <= c <= 90 then c + 32 else c
  }

  /** The comparison of C strings that ignores case. */
  predicate SameName(a: bytes, b: bytes) {
    var x, y := UpToNul(a), UpToNul(b);
    |x| == |y| && forall i :: 0 <= i < |x| ==> Lower(x[i]) == Lower(y[i])
  }

  predicate IsTarget(tags: seq<bytes>, name: bytes, i: nat) {
    i < |tags| && SameName(name, tags[i]) && forall j :: 0 <= j < i ==> !SameName(name, tags[j])
  }

  // ---------------------------------------------------------------- what should arrive

  /** A call of analyze_event: the name of an analyzer, and what it is to be given. */
  datatype Event = Event(name: bytes, msg: Lua)

  ghost predicate GoodEvent(e: Event) {
    && |e.name| < 0x1_0000_0000 && WellFormed(e.msg) && Encodable(e.msg)
    && |Payload(e)| < 0x8000_0000
  }

  function Arguments(e: Event): seq<Lua> {
    [Str(e.name), e.msg]
  }

  /** Both arguments are packed. */
  function Payload(e: Event): bytes {
    if Encodable(Str(e.name)) && Encodable(e.msg) then Encode(Str(e.name), 0) + Encode(e.msg, 0) else []
  }

  function Messages(es: seq<Event>): seq<bytes> {
    if es == [] then [] else [Cut(Payload(es[0]))] + Messages(es[1..])
  }

  lemma {:induction false} MessagesAppend(es: seq<Event>, e: Event)
    ensures Messages(es + [e]) == Messages(es) + [Cut(Payload(e))]
  {
    hide Cut, Payload;
    if es == [] {
      assert es + [e] == [e] && [e][1..] == [];
    } else {
      MessagesAppend(es[1..], e);
      assert (es + [e])[1..] == es[1..] + [e];
    }
  }

  /** What loop() is given of one event: its value, unless that fills the buffer. */
  ghost function Given(e: Event): seq<Value> {
    if |Payload(e)| < MAX_BUFFER_SIZE then [Pruned(Meaning(e.msg), 0)] else []
  }

  /** The values of the events whose packed form is shorter than the buffer, without what encoding drops. */
  ghost function Deliverable(es: seq<Event>): seq<Value> {
    if es == [] then [] else
      var n := |es| - 1;
      Deliverable(es[..n]) + Given(es[n])
  }

  function Meanings(vs: seq<Lua>): (r: seq<Value>)
    ensures |r| == |vs|
  {
    seq(|vs|, i requires 0 <= i < |vs| => Meaning(vs[i]))
  }

  lemma PayloadIsJoined(e: Event)
    requires GoodEvent(e)
    ensures forall v :: v in Arguments(e) ==> WellFormed(v) && Encodable(v)
    ensures Join(Pieces(Arguments(e))) == Payload(e)
    ensures |Payload(e)| >= 2
  {
    hide Encode, Decode, Image, Join;
    ArgumentsAreGood(e);
    var x, y := Encode(Str(e.name), 0), Encode(e.msg, 0);
    assert Pieces(Arguments(e)) == [x, y];
    JoinTwo(x, y);
    DecodeEncode(Str(e.name), 0, []);
    DecodeEncode(e.msg, 0, []);
    assert x + [] == x && y + [] == y;
  }

  lemma ArgumentsAreGood(e: Event)
    requires GoodEvent(e)
    ensures WellFormed(Str(e.name)) && Encodable(Str(e.name)) && WellFormed(e.msg) && Encodable(e.msg)
  {
  }

  lemma JoinTwo(a: bytes, b: bytes)
    ensures Join([a, b]) == a + b
  {
    assert [a, b][1..] == [b] && Join([b]) == b + Join([b][1..]) == b;
  }

  /** What unpacking a whole message puts on the stack: the name, and then what loop() is given. */
  lemma UnpackWhole(e: Event)
    requires GoodEvent(e)
    ensures Unpack(Decode, Payload(e), 0, 0) == Objects(Images(Arguments(e)), NextOffset.None)
    ensures |Images(Arguments(e))| == 2 && Meaning(Images(Arguments(e))[1]) == Pruned(Meaning(e.msg), 0)
  {
    PayloadIsJoined(e);
    hide Encode, Pieces, Join, Unpack, Image, WellFormed, Encodable;
    UnpackPack(Arguments(e));
  }

  // ---------------------------------------------------------------- the analyzers

  /** What one analyzer has: its queue, and the values its loop() has been called with. */
  datatype Analyzer = Analyzer(tag: bytes, pipe: bytes, cancel: bool, calls: seq<Lua>)

  /** Events passed for an analyzer: those taken from the queue, those in it, and those lost when the queue had been
      cancelled. */
  datatype History = History(taken: seq<Event>, waiting: seq<Event>, lost: seq<Event>)

  ghost predicate Follows(a: Analyzer, h: History) {
    && (forall e :: e in h.waiting ==> GoodEvent(e))
    && a.pipe == Frames(Messages(h.waiting))
    && Meanings(a.calls) == Deliverable(h.taken)
    && (!a.cancel ==> h.lost == [])
  }

  ghost function Sent(h: History, e: Event, cancelled: bool): History {
    if cancelled then h.(lost := h.lost + [e]) else h.(waiting := h.waiting + [e])
  }

  ghost function Taken(h: History): History
    requires h.waiting != []
  {
    h.(taken := h.taken + [h.waiting[0]], waiting := h.waiting[1..])
  }

  lemma SendStep(a: Analyzer, h: History, e: Event)
    requires Follows(a, h) && GoodEvent(e) && !a.cancel
    ensures Follows(a.(pipe := a.pipe + Frame(Cut(Payload(e)))), Sent(h, e, false))
  {
    hide GoodEvent, Cut, Frame, Frames, Messages, Deliverable, Payload, Meanings;
    MessagesAppend(h.waiting, e);
    FramesAppend(Messages(h.waiting), Cut(Payload(e)));
  }

  lemma LoseStep(a: Analyzer, h: History, e: Event)
    requires Follows(a, h) && GoodEvent(e) && a.cancel
    ensures Follows(a, Sent(h, e, true))
  {
    hide GoodEvent, Deliverable, Meanings, Frames, Messages;
  }

  /** The first message of a queue that is not empty. */
  lemma FirstFrame(es: seq<Event>)
    requires (forall e :: e in es ==> GoodEvent(e)) && es != []
    ensures var m := Cut(Payload(es[0])); var pipe := Frames(Messages(es));
      && 0 < |m| <= MAX_MESSAGE_SIZE && |pipe| >= 4 + |m|
      && ReadNativeInt(pipe) == |m| && pipe[4..4 + |m|] == m && pipe[4 + |m|..] == Frames(Messages(es[1..]))
      && (|m| == MAX_BUFFER_SIZE <==> |Payload(es[0])| >= MAX_BUFFER_SIZE)
      && (|m| < MAX_BUFFER_SIZE ==> m == Payload(es[0]))
  {
    assert es[0] in es;
    PayloadIsJoined(es[0]);
    var m, rest := Cut(Payload(es[0])), Frames(Messages(es[1..]));
    hide Payload, NativeInt, ReadNativeInt, GoodEvent;
    assert Messages(es)[0] == m && Messages(es)[1..] == Messages(es[1..]);
    Associative(NativeInt(|m|), m, rest);
    NativeIntBack(|m|, m + rest);
  }

  lemma TakeStep(a: Analyzer, h: History, calls: seq<Lua>)
    requires Follows(a, h) && h.waiting != []
    requires var e := h.waiting[0];
      Meanings(calls) == Meanings(a.calls) + Given(e)
    ensures var m := Cut(Payload(h.waiting[0]));
      && |a.pipe| >= 4 + |m|
      && Follows(a.(pipe := a.pipe[4 + |m|..], calls := calls), Taken(h))
  {
    hide GoodEvent, Messages, Frames, ReadNativeInt, Meanings, Pruned, Cut, Payload;
    var e := h.waiting[0];
    FirstFrame(h.waiting);
    assert (h.taken + [e])[..|h.taken|] == h.taken;
    assert forall x :: x in h.taken + [e] ==> x in h.taken || x == e;
  }

  lemma MoreMeanings(vs: seq<Lua>, v: Lua)
    ensures Meanings(vs + [v]) == Meanings(vs) + [Meaning(v)]
  {
  }

  // ---------------------------------------------------------------- steps

  class Engine {
    var analyzers: seq<Analyzer>
    ghost var histories: seq<History>

    ghost predicate Valid()
      reads this
    {
      |histories| == |analyzers| && forall i :: 0 <= i < |analyzers| ==> Follows(analyzers[i], histories[i])
    }

    ghost function Tags(): seq<bytes>
      reads this
    {
      seq(|analyzers|, i requires 0 <= i < |analyzers| reads this => analyzers[i].tag)
    }

    constructor (tags: seq<bytes>)
      ensures Valid() && Tags() == tags
      ensures forall i :: 0 <= i < |tags| ==>
        histories[i] == History([], [], []) && analyzers[i].calls == [] && !analyzers[i].cancel
    {
      analyzers := seq(|tags|, i requires 0 <= i < |tags| => Analyzer(tags[i], [], false, []));
      histories := seq(|tags|, i => History([], [], []));
    }

    /** Writes the length and the message, cut at the largest size, in one piece. */
    method Send(i: nat, message: bytes) returns (n: int)
      requires i < |analyzers| && |message| < 0x8000_0000
      modifies this`analyzers
      ensures n == if old(analyzers)[i].cancel then -1 else 4 + |Cut(message)|
      ensures analyzers == if old(analyzers)[i].cancel then old(analyzers)
        else old(analyzers)[i := old(analyzers)[i].(pipe := old(analyzers)[i].pipe + Frame(Cut(message)))]
    {
      if analyzers[i].cancel {
        return -1;
      }
      var length := |message|;
      if length > MAX_MESSAGE_SIZE {
        length := MAX_MESSAGE_SIZE;
      }
      var iov := NativeInt(length) + message[..length];
      assert message[..length] == Cut(message);
      analyzers := analyzers[i := analyzers[i].(pipe := analyzers[i].pipe + iov)];
      return |iov|;
    }

    /** Reads a length, and then that many bytes. Nothing comes from a cancelled queue; an empty one is waited for. */
    method Recv(i: nat) returns (n: int, buffer: bytes)
      requires Valid() && i < |analyzers| && (analyzers[i].cancel || histories[i].waiting != [])
      modifies this`analyzers
      ensures if old(analyzers)[i].cancel then n == -1 && analyzers == old(analyzers) else
        var m := Cut(Payload(histories[i].waiting[0]));
        && n == |m| && buffer == m && |old(analyzers)[i].pipe| >= 4 + n
        && analyzers == old(analyzers)[i := old(analyzers)[i].(pipe := old(analyzers)[i].pipe[4 + n..])]
    {
      if analyzers[i].cancel {
        return -1, [];
      }
      hide GoodEvent, Cut, Messages, Frames, ReadNativeInt, Deliverable, Meanings, Payload;
      assert Follows(analyzers[i], histories[i]);
      FirstFrame(histories[i].waiting);
      var pipe := analyzers[i].pipe;
      var l := ReadNativeInt(pipe);
      n, buffer := l, pipe[4..4 + l];
      analyzers := analyzers[i := analyzers[i].(pipe := pipe[4 + l..])];
    }

    /** Packs its two arguments and sends them to the first analyzer of that name; to none if there is none. */
    method AnalyzeEvent(e: Event) returns (target: Option<nat>)
      requires Valid() && GoodEvent(e)
      modifies this
      ensures Valid() && Tags() == old(Tags())
      ensures match target
        case None =>
          && analyzers == old(analyzers) && histories == old(histories)
          && forall i :: 0 <= i < |analyzers| ==> !IsTarget(Tags(), e.name, i)
        case Some(i) =>
          && IsTarget(Tags(), e.name, i)
          && histories[i] == Sent(old(histories)[i], e, old(analyzers)[i].cancel)
          && (forall j :: 0 <= j < |analyzers| && j != i ==>
                analyzers[j] == old(analyzers)[j] && histories[j] == old(histories)[j])
          && analyzers[i].calls == old(analyzers)[i].calls && analyzers[i].cancel == old(analyzers)[i].cancel
    {
      hide Follows, Frame, Cut, SameName, GoodEvent, Payload;
      var i := 0;
      while i < |analyzers|
        invariant i <= |analyzers| && analyzers == old(analyzers) && histories == old(histories)
        invariant forall j :: 0 <= j < i ==> !SameName(e.name, Tags()[j])
      {
        if SameName(e.name, analyzers[i].tag) {
          PayloadIsJoined(e);
          var packed := Pack(Arguments(e));
          PayloadLength(e);
          ghost var a, h := analyzers[i], histories[i];
          assert Follows(a, h);
          var n := Send(i, packed.s);
          if n < 0 {
            LoseStep(a, h, e);
            histories := histories[i := Sent(h, e, true)];
          } else {
            SendStep(a, h, e);
            histories := histories[i := Sent(h, e, false)];
          }
          assert Tags() == old(Tags());
          return Some(i);
        }
        i := i + 1;
      }
      return Option.None;
    }

    /** One turn of an analyzer's loop, for an analyzer whose queue is not empty. A message that fills the buffer, and
        so may be cut, is skipped; any other is unpacked without an error and its last value given to loop(). */
    method AnalyzerTurn(i: nat) returns (running: bool)
      requires Valid() && i < |analyzers| && (analyzers[i].cancel || histories[i].waiting != [])
      modifies this
      ensures Valid() && Tags() == old(Tags())
      ensures running == !old(analyzers)[i].cancel
      ensures |histories| == |old(histories)| && |analyzers| == |old(analyzers)|
      ensures analyzers[i].cancel == old(analyzers)[i].cancel
      ensures !running ==> histories[i] == old(histories)[i] && analyzers[i] == old(analyzers)[i]
      ensures running ==> old(histories)[i].waiting != [] && histories[i] == Taken(old(histories)[i])
      ensures running ==>
        var e := old(histories)[i].waiting[0];
        Meanings(analyzers[i].calls) == Meanings(old(analyzers)[i].calls) + Given(e)
      ensures forall j :: 0 <= j < |analyzers| && j != i ==>
        analyzers[j] == old(analyzers)[j] && histories[j] == old(histories)[j]
    {
      hide Follows, Cut, GoodEvent, Unpack, Pruned, Meanings, Payload;
      ghost var a, h := analyzers[i], histories[i];
      assert Follows(a, h);
      if !a.cancel {
        TurnLength(a, h);
      }
      var n, buffer := Recv(i);
      if n <= 0 {
        return false;
      }
      ghost var e := h.waiting[0];
      var calls := analyzers[i].calls;
      if n < MAX_BUFFER_SIZE {
        UnpackWhole(e);
        var stack := UnpackFull(buffer, 0, 0);
        var last := stack.vals[|stack.vals| - 1];
        MoreMeanings(calls, last);
        calls := calls + [last];
      } else {
        assert Meanings(calls) + [] == Meanings(calls);
      }
      TakeStep(a, h, calls);
      analyzers := analyzers[i := analyzers[i].(calls := calls)];
      histories := histories[i := Taken(h)];
      assert Tags() == old(Tags());
      return true;
    }

    /** There are bytes in the pipe exactly when messages wait. */
    lemma PipeNotEmpty(i: nat)
      requires Valid() && i < |analyzers|
      ensures |analyzers[i].pipe| > 0 <==> histories[i].waiting != []
    {
      assert Follows(analyzers[i], histories[i]);
    }

    method CancelQueue(i: nat)
      requires Valid() && i < |analyzers|
      modifies this`analyzers
      ensures Valid() && Tags() == old(Tags())
      ensures analyzers == old(analyzers)[i := old(analyzers)[i].(cancel := true)]
    {
      hide GoodEvent, Meanings, Deliverable, Frames, Messages;
      assert Follows(analyzers[i], histories[i]);
      analyzers := analyzers[i := analyzers[i].(cancel := true)];
      assert Tags() == old(Tags());
    }

    lemma TurnLength(a: Analyzer, h: History)
      requires Follows(a, h) && h.waiting != []
      ensures var p, m := Payload(h.waiting[0]), Cut(Payload(h.waiting[0]));
        GoodEvent(h.waiting[0]) && 0 < |m| && (|m| < MAX_BUFFER_SIZE <==> |p| < MAX_BUFFER_SIZE) && (|m| < MAX_BUFFER_SIZE ==> m == p)
    {
      hide GoodEvent, Messages, Frames, ReadNativeInt, Deliverable, Meanings, Payload, Cut;
      FirstFrame(h.waiting);
    }
  }

  lemma PayloadLength(e: Event)
    requires GoodEvent(e)
    ensures |Payload(e)| < 0x8000_0000
  {
  }

  // ---------------------------------------------------------------- whole runs

  /** A call of analyze_event, a turn of an analyzer's loop, or the cancelling of a queue. */
  datatype Step = Call(e: Event) | Turn(i: nat) | Cancel(i: nat)

  /** The events of a run that are for an analyzer. */
  ghost function EventsFor(tags: seq<bytes>, steps: seq<Step>, i: nat): seq<Event> {
    if steps == [] then [] else
      var n := |steps| - 1;
      EventsFor(tags, steps[..n], i) +
      if steps[n].Call? && IsTarget(tags, steps[n].e.name, i) then [steps[n].e] else []
  }

  /** What the queue of an analyzer is to do: calls join it until it is cancelled, and turns take from it until then. */
  datatype Ledger = Ledger(h: History, cancelled: bool)

  ghost function Booked(l: Ledger, tags: seq<bytes>, step: Step, i: nat): Ledger {
    match step
    case Call(e) => if IsTarget(tags, e.name, i) then l.(h := Sent(l.h, e, l.cancelled)) else l
    case Turn(j) => if j == i && !l.cancelled && l.h.waiting != [] then l.(h := Taken(l.h)) else l
    case Cancel(j) => if j == i then l.(cancelled := true) else l
  }

  ghost function Book(tags: seq<bytes>, steps: seq<Step>, i: nat): Ledger {
    if steps == [] then Ledger(History([], [], []), false) else
      var n := |steps| - 1;
      Booked(Book(tags, steps[..n], i), tags, steps[n], i)
  }

  /** While a queue is not cancelled, what is passed for an analyzer is taken in order or still waits. Once it is,
      nothing is taken any more, and what is passed is lost. */
  lemma {:induction false} NothingElseIsLost(tags: seq<bytes>, steps: seq<Step>, i: nat)
    ensures var l := Book(tags, steps, i);
      && l.h.taken + l.h.waiting + l.h.lost == EventsFor(tags, steps, i)
      && (l.cancelled <==> Cancel(i) in steps)
      && (!l.cancelled ==> l.h.lost == [])
  {
    hide IsTarget;
    if steps != [] {
      var n := |steps| - 1;
      var init, step := steps[..n], steps[n];
      assert steps == init + [step];
      NothingElseIsLost(tags, init, i);
      var h, k := Book(tags, init, i).h, Book(tags, steps, i).h;
      if k == h {
        assert EventsFor(tags, init, i) + [] == EventsFor(tags, init, i);
      } else if step.Turn? {
        assert h.waiting == [h.waiting[0]] + h.waiting[1..];
        assert k.taken + k.waiting == h.taken + h.waiting;
      } else if k == Sent(h, step.e, true) {
        assert k.taken + k.waiting + k.lost == h.taken + h.waiting + h.lost + [step.e];
      } else {
        assert k.taken + k.waiting + k.lost == h.taken + h.waiting + [step.e];
      }
    }
  }

  function Turns(i: nat, k: nat): seq<Step> {
    seq(k, _ => Turn(i))
  }

  /** Each further turn takes one event while some wait. */
  lemma {:induction false} TurnsTake(tags: seq<bytes>, steps: seq<Step>, i: nat, k: nat)
    requires Cancel(i) !in steps && k <= |Book(tags, steps, i).h.waiting|
    ensures var h, after := Book(tags, steps, i).h, Book(tags, steps + Turns(i, k), i).h;
      after == History(h.taken + h.waiting[..k], h.waiting[k..], [])
  {
    hide IsTarget, Book, EventsFor, Turns;
    NothingElseIsLost(tags, steps, i);
    var h := Book(tags, steps, i).h;
    if k == 0 {
      NoTurns(steps, i);
      assert h.taken + h.waiting[..0] == h.taken;
    } else {
      TurnsTake(tags, steps, i, k - 1);
      OneMoreTurn(tags, steps, i, k);
      assert h.waiting[k - 1..][1..] == h.waiting[k..];
      assert h.waiting[..k - 1] + [h.waiting[k - 1]] == h.waiting[..k];
      assert h.taken + h.waiting[..k - 1] + [h.waiting[k - 1]] == h.taken + h.waiting[..k];
    }
  }

  lemma NoTurns(steps: seq<Step>, i: nat)
    ensures steps + Turns(i, 0) == steps
  {
  }

  lemma OneMoreTurn(tags: seq<bytes>, steps: seq<Step>, i: nat, k: nat)
    requires Cancel(i) !in steps && k > 0
    ensures var l, m := Book(tags, steps + Turns(i, k - 1), i), Book(tags, steps + Turns(i, k), i);
      m == if l.h.waiting != [] then l.(h := Taken(l.h)) else l
  {
    hide IsTarget;
    var all, init := steps + Turns(i, k), steps + Turns(i, k - 1);
    NothingElseIsLost(tags, init, i);
    assert Cancel(i) !in init;
    assert all[..|all| - 1] == init && all[|all| - 1] == Turn(i);
  }

  /** After as many turns as events wait, everything passed for the analyzer has been taken. */
  lemma Drained(tags: seq<bytes>, steps: seq<Step>, i: nat)
    requires Cancel(i) !in steps
    ensures var k := |Book(tags, steps, i).h.waiting|;
      Book(tags, steps + Turns(i, k), i).h == History(EventsFor(tags, steps, i), [], [])
  {
    hide IsTarget;
    NothingElseIsLost(tags, steps, i);
    var h := Book(tags, steps, i).h;
    TurnsTake(tags, steps, i, |h.waiting|);
    assert h.waiting[..|h.waiting|] == h.waiting && h.taken + h.waiting + [] == h.taken + h.waiting;
  }

  /** For every run, in which callers and analyzers take turns in any order: what an analyzer's loop() has been called
      with is, in order, the values of the events that its turns took, without those whose packed form fills the
      buffer. A turn of an analyzer with nothing to read does nothing. */
  method Run(tags: seq<bytes>, steps: seq<Step>) returns (calls: seq<seq<Lua>>)
    requires forall s :: s in steps ==> s.Call? ==> GoodEvent(s.e)
    ensures |calls| == |tags|
    ensures forall i :: 0 <= i < |tags| ==> Meanings(calls[i]) == Deliverable(Book(tags, steps, i).h.taken)
  {
    hide Follows, GoodEvent, Meanings, Deliverable, SameName, Given;
    var engine := new Engine(tags);
    var n := 0;
    while n < |steps|
      invariant n <= |steps| && fresh(engine) && engine.Valid() && engine.Tags() == tags
      invariant |engine.analyzers| == |tags|
      invariant forall i :: 0 <= i < |tags| ==>
        Book(tags, steps[..n], i) == Ledger(engine.histories[i], engine.analyzers[i].cancel)
    {
      assert steps[n] in steps && steps[..n + 1][..n] == steps[..n];
      match steps[n] {
        case Call(e) =>
          var target := engine.AnalyzeEvent(e);
          OneTarget(tags, e.name, target);
        case Turn(i) =>
          if i < |engine.analyzers| {
            engine.PipeNotEmpty(i);
            if engine.analyzers[i].cancel || |engine.analyzers[i].pipe| > 0 {
              var running := engine.AnalyzerTurn(i);
            }
          }
        case Cancel(i) =>
          if i < |engine.analyzers| {
            engine.CancelQueue(i);
          }
      }
      n := n + 1;
    }
    assert steps[..n] == steps;
    var list := engine.analyzers;
    calls := seq(|list|, i requires 0 <= i < |list| => list[i].calls);
    forall i | 0 <= i < |tags|
      ensures Meanings(calls[i]) == Deliverable(Book(tags, steps, i).h.taken)
    {
      CallsFollow(engine.analyzers[i], engine.histories[i]);
    }
  }

  lemma CallsFollow(a: Analyzer, h: History)
    requires Follows(a, h)
    ensures Meanings(a.calls) == Deliverable(h.taken)
  {
  }

  lemma OneTarget(tags: seq<bytes>, name: bytes, target: Option<nat>)
    requires match target
      case None => forall i :: 0 <= i < |tags| ==> !IsTarget(tags, name, i)
      case Some(i) => IsTarget(tags, name, i)
    ensures forall j: nat :: IsTarget(tags, name, j) <==> target == Some(j)
  {
    hide SameName;
    forall j: nat, k: nat | IsTarget(tags, name, j) && IsTarget(tags, name, k)
      ensures j == k
    {
    }
  }

  // ---------------------------------------------------------------- names and sizes

  /** The same letter, or a large one and its small one. */
  predicate SameLetter(a: byte, b: byte) {
    a == b || (65 <= a <= 90 && b as int == a + 32) || (65 <= b <= 90 && a as int == b + 32)
  }

  /** The characters before a NUL. */
  predicate IsCString(s: bytes, t: bytes) {
    t <= s && 0 !in t && (|t| < |s| ==> s[|t|] == 0)
  }

  lemma {:induction false} UpToNulIs(s: bytes)
    ensures IsCString(s, UpToNul(s)) && forall t :: IsCString(s, t) ==> t == UpToNul(s)
  {
    if s != [] && s[0] != 0 {
      UpToNulIs(s[1..]);
      assert s == [s[0]] + s[1..];
      forall t | IsCString(s, t) ensures t == UpToNul(s) {
        assert t != [];
        assert t[0] == s[0] && IsCString(s[1..], t[1..]) by {
          assert forall i :: 0 <= i < |t[1..]| ==> t[1..][i] == t[i + 1] == s[i + 1] == s[1..][i];
        }
        assert t == [t[0]] + t[1..];
      }
    }
  }

  /** Names are the same letter by letter, whatever the case, up to a NUL. */
  lemma SameNameIff(a: bytes, b: bytes, x: bytes, y: bytes)
    requires IsCString(a, x) && IsCString(b, y)
    ensures SameName(a, b) <==> |x| == |y| && forall i :: 0 <= i < |x| ==> SameLetter(x[i], y[i])
  {
    UpToNulIs(a);
    UpToNulIs(b);
  }

  /** An event is given to loop() exactly if it takes fewer than 32768 bytes. */
  lemma GivenIff(e: Event)
    ensures Given(e) == (if |Payload(e)| < 32768 then [Pruned(Meaning(e.msg), 0)] else [])
    ensures |Cut(Payload(e))| == if |Payload(e)| < 32768 then |Payload(e)| else 32768
  {
  }
}
