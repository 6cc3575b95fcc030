/** The console's ring buffer: an interrupt adds characters while a reader takes them (kernel/io/console.c). */
module Console {
  const LENGTH := 64
  const CANON := 1
  const ECHO := 2

  /** Where the reader is in `console_read`: each name says what it does next. An interrupt may come before any step. */
  datatype Point = Check | Load | Copy | Advance | Wrap | Count | Echo | Test | Returned

  datatype Event = Add(char) | Call(length: nat) | Step

  /**
   * The console, the reader's variables, and the history: every character added, delivered and echoed, and how many
   * had been delivered when the current call began.
   */
  datatype State = State(
    buffer: string, read: nat, write: nat, mode: nat,
    point: Point, c: char, count: nat, length: nat,
    added: string, delivered: string, start: nat, echoed: string)
  {
    predicate Shape()
    {
      && |buffer| == LENGTH && write < LENGTH && (read < LENGTH || (read == LENGTH && point == Wrap))
      && start <= |delivered|
    }

    predicate Canonical()
    {
      mode % 2 == 1
    }

    predicate Echoing()
    {
      mode / 2 % 2 == 1
    }

    /** What the current call has delivered. */
    function Part(): string
      requires Shape()
    {
      delivered[start..]
    }
  }

  function Boot(mode: nat): State
  {
    State(seq(LENGTH, i => '\0'), 0, 0, mode, Returned, '\0', 0, 0, "", "", 0, "")
  }

  /** One step of the reader. */
  function ReaderStep(s: State): (s': State)
    requires s.Shape()
    ensures s'.Shape() && s'.added == s.added && s'.mode == s.mode && s'.length == s.length
  {
    match s.point
    case Check => if s.read == s.write then s else s.(point := Load)
    case Load => s.(c := s.buffer[s.read], point := Copy)
    case Copy => s.(delivered := s.delivered + [s.buffer[s.read]], point := Advance)
    case Advance => s.(read := s.read + 1, point := Wrap)
    case Wrap => s.(read := if s.read == LENGTH then 0 else s.read, point := Count)
    case Count => s.(count := s.count + 1, point := Echo)
    case Echo => s.(echoed := if s.Echoing() then s.echoed + [s.c] else s.echoed, point := Test)
    case Test => s.(point := if s.count == s.length || (s.c == '\n' && s.Canonical()) then Returned else Check)
    case Returned => s
  }

  /** An interrupt, a call of `console_read` (which a reader inside a call cannot make), or a step of the reader. */
  function Next(s: State, e: Event): (s': State)
    requires s.Shape()
    ensures s'.Shape() && s'.mode == s.mode
  {
    match e
    case Add(c) =>
      var write := if s.write + 1 == LENGTH then 0 else s.write + 1;
      s.(buffer := s.buffer[s.write := c], write := write, added := s.added + [c])
    case Call(length) =>
      if s.point != Returned then s
      else s.(point := if length == 0 then Returned else Check, count := 0, length := length, start := |s.delivered|)
    case Step => ReaderStep(s)
  }

  function Run(s: State, es: seq<Event>): (s': State)
    requires s.Shape()
    ensures s'.Shape()
  {
    if es == [] then s else Next(Run(s, es[..|es| - 1]), es[|es| - 1])
  }

  // ---------------------------------------------------------------- what holds whatever the schedule

  /** How many characters the reader has moved past. */
  function Passed(s: State): nat
    requires s.Shape() && (s.point == Advance ==> s.delivered != "")
  {
    if s.point == Advance then |s.delivered| - 1 else |s.delivered|
  }

  /** Both indices count modulo 64, and each place holds the last character added to it, even after an overflow. */
  ghost predicate Ring(s: State)
  {
    && s.Shape()
    && (s.point == Advance ==> s.delivered != "")
    && (s.point == Wrap ==> s.delivered != "" && s.read == (|s.delivered| - 1) % LENGTH + 1)
    && (s.point != Wrap ==> s.read == Passed(s) % LENGTH)
    && s.write == |s.added| % LENGTH
    && (forall j: nat :: |s.added| - LENGTH <= j < |s.added| ==> s.buffer[j % LENGTH] == s.added[j])
    && |s.delivered| <= |s.added|
    && (s.point in {Load, Copy} ==> |s.delivered| < |s.added|)
  }

  /** The last of the positions congruent to `position` modulo 64 that a stream of `length` characters has. */
  function Latest(position: nat, length: nat): (latest: nat)
    requires position < length
    ensures latest < length <= latest + LENGTH && latest % LENGTH == position % LENGTH
    ensures length <= position + LENGTH ==> latest == position
    ensures length > position + LENGTH ==> latest >= position + LENGTH
  {
    position + (length - 1 - position) / LENGTH * LENGTH
  }

  lemma BootRing(mode: nat)
    ensures Ring(Boot(mode))
  {
  }

  /** Positions less than a lap apart have places of their own. */
  lemma PlacesApart(j: nat, n: nat)
    requires n - LENGTH < j < n
    ensures j % LENGTH != n % LENGTH
  {
  }

  lemma RingAdd(s: State, c: char)
    requires Ring(s)
    ensures Ring(Next(s, Add(c)))
  {
    var s' := Next(s, Add(c));
    var n := |s.added|;
    PlacesKept(s, c);
    NextPlace(n);
  }

  lemma NextPlace(n: nat)
    ensures (n + 1) % LENGTH == if n % LENGTH + 1 == LENGTH then 0 else n % LENGTH + 1
  {
  }

  lemma PlacesKept(s: State, c: char)
    requires Ring(s)
    ensures var s' := Next(s, Add(c));
            forall j: nat :: |s'.added| - LENGTH <= j < |s'.added| ==> s'.buffer[j % LENGTH] == s'.added[j]
  {
    var s' := Next(s, Add(c));
    forall j: nat | |s'.added| - LENGTH <= j < |s'.added|
      ensures s'.buffer[j % LENGTH] == s'.added[j]
    {
      if j < |s.added| {
        assert s.buffer[j % LENGTH] == s.added[j];
        PlacesApart(j, |s.added|);
      }
    }
  }

  lemma RingReader(s: State)
    requires Ring(s)
    ensures Ring(ReaderStep(s))
  {
  }

  lemma RingNext(s: State, e: Event)
    requires Ring(s)
    ensures Ring(Next(s, e))
  {
    match e {
      case Add(c) => RingAdd(s, c);
      case Call(length) =>
      case Step => RingReader(s);
    }
  }

  lemma {:induction false} RingRun(s: State, es: seq<Event>)
    requires Ring(s)
    ensures Ring(Run(s, es))
    decreases |es|
  {
    if es != [] {
      RingRun(s, es[..|es| - 1]);
      RingNext(Run(s, es[..|es| - 1]), es[|es| - 1]);
    }
  }

  /** Whatever the schedule, the reader copies the last character added to its place, and so skips whole laps. */
  lemma CopyDelivers(s: State)
    requires Ring(s) && s.point == Copy
    ensures ReaderStep(s).delivered == s.delivered + [s.added[Latest(|s.delivered|, |s.added|)]]
  {
    var j := Latest(|s.delivered|, |s.added|);
    assert s.buffer[j % LENGTH] == s.added[j];
  }

  // ---------------------------------------------------------------- without overflow

  /** At most 63 characters are unread, or 64 when the reader has already seen that one is there. */
  predicate Room(s: State)
  {
    |s.added| - |s.delivered| <= if s.point in {Load, Copy} then LENGTH else LENGTH - 1
  }

  /** Whether a call is over: it has delivered enough, or a whole line in canonical mode. */
  predicate Full(part: string, length: nat, canonical: bool)
  {
    |part| == length || (canonical && part != "" && part[|part| - 1] == '\n')
  }

  /** What has been echoed: what was delivered, short of a character the reader is still dealing with. */
  function Echoed(s: State): string
  {
    if !s.Echoing() then ""
    else if s.point in {Advance, Wrap, Count, Echo} && s.delivered != "" then s.delivered[..|s.delivered| - 1]
    else s.delivered
  }

  /** The call in progress has not gone past the first point where it is over, and a call that has returned is over. */
  ghost predicate Stops(s: State)
    requires s.Shape()
  {
    && (forall k :: 0 < k < |s.Part()| ==> !Full(s.Part()[..k], s.length, s.Canonical()))
    && (s.point in {Check, Load, Copy} ==> s.length > 0 && !Full(s.Part(), s.length, s.Canonical()))
    && (s.point == Returned && s.length > 0 ==> Full(s.Part(), s.length, s.Canonical()))
    && (s.point == Returned && s.length == 0 ==> s.Part() == "")
  }

  /** The reader's variables. */
  ghost predicate Locals(s: State)
    requires s.Shape()
  {
    && (s.point == Copy ==> |s.delivered| < |s.added| && s.c == s.added[|s.delivered|])
    && (s.point in {Advance, Wrap, Count, Echo, Test} ==>
          s.length > 0 && s.Part() != "" && s.c == s.delivered[|s.delivered| - 1])
    && (s.point != Returned ==> s.count == if s.point in {Advance, Wrap, Count} then |s.Part()| - 1 else |s.Part()|)
  }

  ghost predicate InOrder(s: State)
    requires s.Shape()
  {
    && s.delivered <= s.added
    && Locals(s)
    && Stops(s)
    && s.echoed == Echoed(s)
  }

  lemma InOrderAdd(s: State, c: char)
    requires s.Shape() && Ring(s) && InOrder(s)
    ensures InOrder(Next(s, Add(c)))
  {
    hide Ring, Full;
    assert Next(s, Add(c)).Part() == s.Part();
  }

  lemma InOrderCall(s: State, length: nat)
    requires s.Shape() && Ring(s) && InOrder(s)
    ensures InOrder(Next(s, Call(length)))
  {
    hide Ring;
  }

  /** The step that reads the ring, and finds there the first unread character. */
  lemma InOrderCopy(s: State)
    requires s.Shape() && Ring(s) && Room(s) && InOrder(s) && s.point == Copy
    ensures InOrder(ReaderStep(s))
  {
    hide Ring, Full;
    CopyDelivers(s);
    var s', x := ReaderStep(s), s.added[|s.delivered|];
    assert s'.Part() == s.Part() + [x];
    forall k | 0 < k < |s'.Part()|
      ensures !Full(s'.Part()[..k], s.length, s.Canonical())
    {
      assert s'.Part()[..k] == s.Part()[..k];
      if k == |s.Part()| {
        assert s.Part()[..k] == s.Part();
      }
    }
  }

  lemma InOrderTest(s: State)
    requires s.Shape() && Ring(s) && Room(s) && InOrder(s) && s.point == Test
    ensures InOrder(ReaderStep(s))
  {
    hide Ring;
    assert ReaderStep(s).Part() == s.Part();
  }

  lemma InOrderLoad(s: State)
    requires s.Shape() && Ring(s) && Room(s) && InOrder(s) && s.point == Load
    ensures InOrder(ReaderStep(s))
  {
    hide Full, Stops;
    assert s.buffer[|s.delivered| % LENGTH] == s.added[|s.delivered|];
    var s' := ReaderStep(s);
    assert Stops(s') by { StopsMoves(s, s'); }
  }

  lemma InOrderMove(s: State)
    requires s.Shape() && InOrder(s) && s.point !in {Load, Copy, Test}
    ensures InOrder(ReaderStep(s))
  {
    hide Full, Stops;
    StopsMoves(s, ReaderStep(s));
  }

  lemma StopsMoves(s: State, s': State)
    requires s.Shape() && Stops(s) && s' == ReaderStep(s) && s.point !in {Copy, Test}
    ensures Stops(s') && s'.Part() == s.Part()
  {
    hide Full;
    assert s'.Part() == s.Part();
  }

  lemma InOrderNext(s: State, e: Event)
    requires s.Shape() && Ring(s) && Room(s) && InOrder(s)
    ensures InOrder(Next(s, e))
  {
    hide InOrder, Ring, Room;
    match e {
      case Add(c) => InOrderAdd(s, c);
      case Call(length) => InOrderCall(s, length);
      case Step =>
        if s.point == Copy {
          InOrderCopy(s);
        } else if s.point == Test {
          InOrderTest(s);
        } else if s.point == Load {
          InOrderLoad(s);
        } else {
          InOrderMove(s);
        }
    }
  }

  /**
   * Under any schedule that always leaves room, what has been delivered is what was added, in order; each call stops
   * where it is full and not before; and the echo follows.
   */
  lemma {:induction false} Delivery(mode: nat, es: seq<Event>)
    requires forall k :: 0 <= k <= |es| ==> Room(Run(Boot(mode), es[..k]))
    ensures var s := Run(Boot(mode), es); s.delivered <= s.added && Stops(s) && s.echoed == Echoed(s)
  {
    InOrderRun(mode, es);
  }

  lemma {:induction false} InOrderRun(mode: nat, es: seq<Event>)
    requires forall k :: 0 <= k <= |es| ==> Room(Run(Boot(mode), es[..k]))
    ensures Ring(Run(Boot(mode), es)) && InOrder(Run(Boot(mode), es))
    decreases |es|
  {
    hide Room, InOrder, Ring;
    assert Ring(Boot(mode)) by { BootRing(mode); }
    RingRun(Boot(mode), es);
    if es == [] {
      BootInOrder(mode);
    } else {
      var before := es[..|es| - 1];
      forall k | 0 <= k <= |before|
        ensures Room(Run(Boot(mode), before[..k]))
      {
        assert before[..k] == es[..k];
      }
      InOrderRun(mode, before);
      assert before == before[..|before|];
      InOrderNext(Run(Boot(mode), before), es[|es| - 1]);
    }
  }

  lemma BootInOrder(mode: nat)
    ensures InOrder(Boot(mode))
  {
  }

  // ---------------------------------------------------------------- the four modes

  lemma {:induction false} ModeStays(mode: nat, es: seq<Event>)
    ensures Run(Boot(mode), es).mode == mode
    decreases |es|
  {
    hide Next;
    if es != [] {
      ModeStays(mode, es[..|es| - 1]);
    }
  }

  /** In modes 0 and 1 nothing is echoed, whatever the schedule, overflow included. */
  lemma {:induction false} NoEcho(mode: nat, es: seq<Event>)
    requires mode == 0 || mode == 1
    ensures Run(Boot(mode), es).echoed == ""
    decreases |es|
  {
    if es != [] {
      var before := es[..|es| - 1];
      ModeStays(mode, before);
      NoEcho(mode, before);
      NoEchoNext(Run(Boot(mode), before), es[|es| - 1]);
    }
  }

  lemma NoEchoNext(s: State, e: Event)
    requires s.Shape() && (s.mode == 0 || s.mode == 1) && s.echoed == ""
    ensures Next(s, e).echoed == ""
  {
  }

  /**
   * In modes 2 and 3 every character is echoed: under any schedule that leaves room, what has been echoed is what has
   * been delivered, short of the character the reader still has in hand.
   */
  lemma AllEchoed(mode: nat, es: seq<Event>)
    requires mode == 2 || mode == 3
    requires forall k :: 0 <= k <= |es| ==> Room(Run(Boot(mode), es[..k]))
    ensures var s := Run(Boot(mode), es);
            if s.point in {Advance, Wrap, Count, Echo}
            then s.delivered != "" && s.echoed == s.delivered[..|s.delivered| - 1] else s.echoed == s.delivered
  {
    InOrderRun(mode, es);
    ModeStays(mode, es);
    EchoIs(Run(Boot(mode), es));
  }

  lemma EchoIs(s: State)
    requires s.Shape() && InOrder(s) && (s.mode == 2 || s.mode == 3)
    ensures if s.point in {Advance, Wrap, Count, Echo}
            then s.delivered != "" && s.echoed == s.delivered[..|s.delivered| - 1] else s.echoed == s.delivered
  {
    hide *;
    InOrderParts(s);
    InHand(s);
    EchoedIn(s);
  }

  lemma InOrderParts(s: State)
    requires s.Shape() && InOrder(s)
    ensures Locals(s) && Stops(s) && s.echoed == Echoed(s)
  {
    hide Locals, Stops, Echoed;
  }

  lemma InHand(s: State)
    requires s.Shape() && Locals(s)
    ensures s.point in {Advance, Wrap, Count, Echo} ==> s.delivered != ""
  {
  }

  lemma EchoedIn(s: State)
    requires s.mode == 2 || s.mode == 3
    requires s.point in {Advance, Wrap, Count, Echo} ==> s.delivered != ""
    ensures Echoed(s) == if s.point in {Advance, Wrap, Count, Echo} then s.delivered[..|s.delivered| - 1]
                         else s.delivered
  {
  }

  /**
   * In modes 0 and 2 a call goes on past the end of a line: it returns with as many characters as it asked for, and not
   * before.
   */
  lemma WholeLength(mode: nat, es: seq<Event>)
    requires mode == 0 || mode == 2
    requires forall k :: 0 <= k <= |es| ==> Room(Run(Boot(mode), es[..k]))
    ensures var s := Run(Boot(mode), es);
            && (s.point == Returned ==> |s.Part()| == s.length)
            && (s.point in {Check, Load, Copy} ==> |s.Part()| < s.length)
  {
    InOrderRun(mode, es);
    ModeStays(mode, es);
    LengthIs(Run(Boot(mode), es));
  }

  lemma LengthIs(s: State)
    requires s.Shape() && InOrder(s) && (s.mode == 0 || s.mode == 2)
    ensures s.point == Returned ==> |s.Part()| == s.length
    ensures s.point in {Check, Load, Copy} ==> |s.Part()| < s.length
  {
    InOrderParts(s);
    hide InOrder, Locals, Echoed;
    var part := s.Part();
    var k := if |part| > s.length then s.length else 0;
    assert |part[..k]| == k;
  }

  /**
   * In modes 1 and 3 a call ends with a line: it returns with as many characters as it asked for or with an end of
   * line, and has gone past neither.
   */
  lemma LineByLine(mode: nat, es: seq<Event>)
    requires mode == 1 || mode == 3
    requires forall k :: 0 <= k <= |es| ==> Room(Run(Boot(mode), es[..k]))
    ensures var s := Run(Boot(mode), es);
            var part := s.Part();
            && '\n' !in part[..if part == "" then 0 else |part| - 1]
            && (s.point == Returned ==> |part| == s.length || (part != "" && part[|part| - 1] == '\n'))
            && (s.point in {Check, Load, Copy} ==> |part| < s.length && '\n' !in part)
  {
    InOrderRun(mode, es);
    ModeStays(mode, es);
    LineIs(Run(Boot(mode), es));
  }

  lemma LineIs(s: State)
    requires s.Shape() && InOrder(s) && (s.mode == 1 || s.mode == 3)
    ensures var part := s.Part();
            && '\n' !in part[..if part == "" then 0 else |part| - 1]
            && (s.point == Returned ==> |part| == s.length || (part != "" && part[|part| - 1] == '\n'))
            && (s.point in {Check, Load, Copy} ==> |part| < s.length && '\n' !in part)
  {
    InOrderParts(s);
    hide InOrder, Locals, Echoed;
    var part := s.Part();
    forall k | 0 <= k < |part| - 1
      ensures part[k] != '\n'
    {
      assert !Full(part[..k + 1], s.length, s.Canonical());
    }
    var k := if |part| > s.length then s.length else 0;
    assert |part[..k]| == k;
  }

  /** The reader running on its own. */
  function Alone(s: State, n: nat): (s': State)
    requires s.Shape()
    ensures s'.Shape()
    decreases n
  {
    if n == 0 then s else Alone(ReaderStep(s), n - 1)
  }

  lemma {:induction false} AloneKeeps(s: State, n: nat)
    requires s.Shape() && Ring(s) && Room(s) && InOrder(s)
    ensures var s' := Alone(s, n); s'.Shape() && Ring(s') && Room(s') && InOrder(s') && s'.added == s.added
    decreases n
  {
    hide *;
    AloneStep(s, n);
    if n > 0 {
      RingNext(s, Step);
      InOrderNext(s, Step);
      StepIsNext(s);
      RoomStep(s);
      AloneKeeps(ReaderStep(s), n - 1);
    }
  }

  lemma AloneStep(s: State, n: nat)
    requires s.Shape()
    ensures Alone(s, n) == if n == 0 then s else Alone(ReaderStep(s), n - 1)
  {
  }

  lemma RoomStep(s: State)
    requires s.Shape() && Room(s)
    ensures Room(ReaderStep(s))
  {
  }

  lemma StepIsNext(t: State)
    requires t.Shape()
    ensures Next(t, Step) == ReaderStep(t)
  {
  }

  /** With a character unread, eight steps deliver it and bring the reader back to its check, or out of the call. */
  lemma TakesOne(s: State)
    requires s.Shape() && s.point == Check && s.read != s.write
    ensures var s' := Alone(s, 8);
            && |s'.delivered| == |s.delivered| + 1
            && s'.start == s.start && s'.length == s.length && s'.mode == s.mode
            && s'.point in {Check, Returned}
  {
    var s4 := ReaderStep(ReaderStep(ReaderStep(ReaderStep(s))));
    AloneFour(s, 4);
    AloneFour(s4, 0);
  }

  lemma AloneFour(s: State, n: nat)
    requires s.Shape()
    ensures Alone(s, n + 4) == Alone(ReaderStep(ReaderStep(ReaderStep(ReaderStep(s)))), n)
  {
    hide ReaderStep;
    var s1 := ReaderStep(s);
    var s2 := ReaderStep(s1);
    var s3 := ReaderStep(s2);
    assert Alone(s1, n + 3) == Alone(s2, n + 2) == Alone(s3, n + 1) == Alone(ReaderStep(s3), n);
  }

  lemma {:induction false} AloneAgain(s: State, m: nat, n: nat)
    requires s.Shape() && Alone(s, m).Shape()
    ensures Alone(s, m + n) == Alone(Alone(s, m), n)
    decreases m
  {
    hide ReaderStep;
    if m > 0 {
      AloneAgain(ReaderStep(s), m - 1, n);
    }
  }

  lemma Unread(s: State)
    requires Ring(s) && Room(s) && s.point == Check && |s.delivered| < |s.added|
    ensures s.read != s.write
  {
  }

  lemma NotYet(s: State, end: nat)
    requires s.Shape() && InOrder(s) && s.point == Check
    requires s.start <= end <= |s.added| && Full(s.added[s.start..end], s.length, s.Canonical())
    ensures |s.delivered| != end
  {
    assert s.Part() == s.added[s.start..|s.delivered|];
  }

  /** A call returns once what completes it has been added: it does not wait for more. */
  lemma {:induction false} CallReturns(s: State, end: nat)
    requires s.Shape() && Ring(s) && Room(s) && InOrder(s) && s.point == Check
    requires |s.delivered| < end <= |s.added| && Full(s.added[s.start..end], s.length, s.Canonical())
    ensures exists n: nat :: Alone(s, n).point == Returned && |Alone(s, n).delivered| <= end
    decreases end - |s.delivered|
  {
    hide Alone, InOrder, ReaderStep, Full, Ring, Room;
    Unread(s);
    var s' := Alone(s, 8);
    TakesOne(s);
    AloneKeeps(s, 8);
    if s'.point == Check {
      NotYet(s', end);
      CallReturns(s', end);
      var n: nat :| Alone(s', n).point == Returned && |Alone(s', n).delivered| <= end;
      AloneAgain(s, 8, n);
      assert Alone(s, 8 + n).point == Returned && |Alone(s, 8 + n).delivered| <= end;
    }
  }

  /** In modes 1 and 3 a call returns once the end of a line has been added, at the latest with it. */
  lemma LineReturns(s: State, end: nat)
    requires s.Shape() && Ring(s) && Room(s) && InOrder(s) && s.point == Check && (s.mode == 1 || s.mode == 3)
    requires |s.delivered| < end <= |s.added| && s.added[end - 1] == '\n'
    ensures exists n: nat :: Alone(s, n).point == Returned && |Alone(s, n).delivered| <= end
  {
    hide Alone, InOrder, Ring, Room;
    var part := s.added[s.start..end];
    assert part[|part| - 1] == '\n';
    CallReturns(s, end);
  }

  /** In any mode it returns once it has as many characters as it asked for. */
  lemma LengthReturns(s: State, end: nat)
    requires s.Shape() && Ring(s) && Room(s) && InOrder(s) && s.point == Check
    requires |s.delivered| < end <= |s.added| && end == s.start + s.length
    ensures exists n: nat :: Alone(s, n).point == Returned && |Alone(s, n).delivered| <= end
  {
    hide Alone, InOrder, Ring, Room;
    CallReturns(s, end);
  }

  /** A newline and an x are there, and two characters are asked for. */
  function Line(mode: nat): (s: State)
    ensures s.Shape()
  {
    Next(Next(Next(Boot(mode), Add('\n')), Add('x')), Call(2))
  }

  /** In modes 1 and 3 the call returns with the newline, in modes 0 and 2 with both; 2 and 3 echo. */
  lemma LineExample(mode: nat)
    requires mode < 4
    ensures var s := Alone(Line(mode), 8);
            && s.delivered == "\n" && s.point == (if mode == 1 || mode == 3 then Returned else Check)
            && s.echoed == if mode < 2 then "" else "\n"
    ensures mode == 0 || mode == 2 ==>
        var s := Alone(Line(mode), 16);
        s.delivered == "\nx" && s.point == Returned && s.echoed == if mode < 2 then "" else "\nx"
  {
    hide *;
    var s := Line(mode);
    LineStart(mode);
    TakesFirst(s);
    assert "" + ['\n'] == "\n" && "\n" + ['x'] == "\nx";
    if mode == 0 || mode == 2 {
      TakesFirst(Alone(s, 8));
      AloneAgain(s, 8, 8);
    }
  }

  lemma LineStart(mode: nat)
    ensures var s := Line(mode);
            && s.Shape() && s.buffer[0] == '\n' && s.buffer[1] == 'x' && s.echoed == s.delivered == ""
            && s.point == Check && s.read == 0 && s.write == 2 && s.count == 0 && s.length == 2 && s.mode == mode
  {
  }

  /** Eight steps of the reader at its check. */
  lemma TakesFirst(s: State)
    requires s.Shape() && s.point == Check && s.read != s.write && s.read < 63 && s.mode < 4
    ensures var c, t := s.buffer[s.read], Alone(s, 8);
            && t.delivered == s.delivered + [c] && t.count == s.count + 1 && t.read == s.read + 1
            && t.buffer == s.buffer && t.write == s.write && t.mode == s.mode && t.length == s.length
            && t.echoed == (if s.mode < 2 then s.echoed else s.echoed + [c])
            && t.point == if t.count == t.length || (c == '\n' && (s.mode == 1 || s.mode == 3)) then Returned else Check
  {
    hide *;
    StepsIn(s);
    var s4 := ReaderStep(ReaderStep(ReaderStep(ReaderStep(s))));
    StepsOut(s4);
    AloneFour(s, 4);
    AloneFour(s4, 0);
    AloneStep(ReaderStep(ReaderStep(ReaderStep(ReaderStep(s4)))), 0);
  }

  lemma StepsIn(s: State)
    requires s.Shape() && s.point == Check && s.read != s.write && s.read < 63
    ensures var c := s.buffer[s.read];
            && s.buffer[s.read] == c
            && ReaderStep(ReaderStep(ReaderStep(ReaderStep(s)))) ==
               s.(c := c, delivered := s.delivered + [c], read := s.read + 1, point := Wrap)
  {
  }

  lemma StepsOut(s: State)
    requires s.Shape() && s.point == Wrap && s.read < 64 && s.mode < 4
    ensures ReaderStep(ReaderStep(ReaderStep(ReaderStep(s)))) ==
            s.(count := s.count + 1, echoed := if s.mode < 2 then s.echoed else s.echoed + [s.c],
               point := if s.count + 1 == s.length || (s.c == '\n' && (s.mode == 1 || s.mode == 3)) then Returned
                        else Check)
  {
  }

  // ---------------------------------------------------------------- after an overflow

  /** The reader finds the ring empty exactly when the number of unread characters is a multiple of 64. */
  lemma LooksEmpty(s: State)
    requires Ring(s) && s.point == Check
    ensures s.read == s.write <==> (|s.added| - |s.delivered|) % LENGTH == 0
  {
    RingIndices(s);
    hide Ring;
    SameRemainder(|s.added|, |s.delivered|);
  }

  lemma SameRemainder(a: nat, d: nat)
    ensures a % LENGTH == d % LENGTH <==> (a - d) % LENGTH == 0
  {
    var p, q := a / LENGTH, d / LENGTH;
    assert a - d == (p - q) * LENGTH + (a % LENGTH - d % LENGTH);
  }

  function Adds(text: string): (es: seq<Event>)
    ensures |es| == |text|
  {
    seq(|text|, i requires 0 <= i < |text| => Add(text[i]))
  }

  lemma {:induction false} RunAdds(mode: nat, text: string)
    ensures var s := Run(Boot(mode), Adds(text)); s.added == text && s.delivered == "" && s.point == Returned
    decreases |text|
  {
    var n := |text| - 1;
    if text != "" {
      assert Adds(text)[..n] == Adds(text[..n]) && Adds(text)[n] == Add(text[n]);
      RunAdds(mode, text[..n]);
      assert text == text[..n] + [text[n]];
    }
  }

  /**
   * Overflow is reached: after 64 characters with nobody reading there is no room, and a call then finds the ring empty
   * though all of them are unread.
   */
  lemma OverflowExample(mode: nat, text: string, length: nat)
    requires |text| == LENGTH && length > 0
    ensures var s := Run(Boot(mode), Adds(text));
            && !Room(s) && s.added == text && s.delivered == "" && s.read == s.write
            && ReaderStep(Next(s, Call(length))) == Next(s, Call(length))
  {
    hide Run, Ring;
    var s := Run(Boot(mode), Adds(text));
    RunAdds(mode, text);
    BootRing(mode);
    RingRun(Boot(mode), Adds(text));
    RingIndices(s);
  }

  lemma RingIndices(s: State)
    requires Ring(s) && s.point in {Check, Returned}
    ensures s.read == |s.delivered| % LENGTH && s.write == |s.added| % LENGTH
  {
  }

  /** The character delivered at a position is one added 64 or more places later. */
  ghost predicate Skipped(s: State, position: nat)
    requires position < |s.delivered|
  {
    exists j :: position + LENGTH <= j < |s.added| && s.delivered[position] == s.added[j]
  }

  /**
   * Once there is no room, no continuation delivers the first unread character in its turn: the reader sees an empty
   * ring, and when it next finds a character, that one was added at least 64 places later.
   */
  lemma {:induction false} OverflowSkips(s: State, es: seq<Event>)
    requires Ring(s) && !Room(s)
    ensures var s' := Run(s, es);
            && s.delivered <= s'.delivered && s.added <= s'.added
            && (|s'.delivered| == |s.delivered| ==> !Room(s'))
            && (|s'.delivered| > |s.delivered| ==> Skipped(s', |s.delivered|))
    decreases |es|
  {
    if es != [] {
      var before := es[..|es| - 1];
      OverflowSkips(s, before);
      RingRun(s, before);
      SkipsNext(s, Run(s, before), es[|es| - 1]);
    }
  }

  lemma SkipsNext(s: State, t: State, e: Event)
    requires t.Shape() && Ring(t) && s.delivered <= t.delivered && s.added <= t.added
    requires |t.delivered| == |s.delivered| ==> !Room(t)
    requires |t.delivered| > |s.delivered| ==> Skipped(t, |s.delivered|)
    ensures var s' := Next(t, e);
            && s.delivered <= s'.delivered && s.added <= s'.added
            && (|s'.delivered| == |s.delivered| ==> !Room(s'))
            && (|s'.delivered| > |s.delivered| ==> Skipped(s', |s.delivered|))
  {
    hide Ring, Room, Skipped, Next, ReaderStep;
    var s' := Next(t, e);
    Grows(t, e);
    StepIsNext(t);
    if |t.delivered| > |s.delivered| {
      SkippedStays(t, s', |s.delivered|);
    } else if e == Step && t.point == Copy {
      CopySkips(t);
    } else {
      NoRoomStays(t, e);
    }
  }

  lemma Grows(t: State, e: Event)
    requires t.Shape()
    ensures t.delivered <= Next(t, e).delivered && t.added <= Next(t, e).added
  {
  }

  lemma SkippedStays(t: State, t': State, position: nat)
    requires position < |t.delivered| && Skipped(t, position) && t.delivered <= t'.delivered && t.added <= t'.added
    ensures Skipped(t', position)
  {
    var j :| position + LENGTH <= j < |t.added| && t.delivered[position] == t.added[j];
    assert t'.delivered[position] == t'.added[j];
  }

  lemma CopySkips(t: State)
    requires t.Shape() && Ring(t) && !Room(t) && t.point == Copy
    ensures |ReaderStep(t).delivered| == |t.delivered| + 1 && Skipped(ReaderStep(t), |t.delivered|)
  {
    hide Ring;
    var t' := ReaderStep(t);
    CopyDelivers(t);
    assert t'.delivered[|t.delivered|] == t'.added[Latest(|t.delivered|, |t.added|)];
  }

  lemma NoRoomStays(t: State, e: Event)
    requires Ring(t) && !Room(t) && !(e == Step && t.point == Copy)
    ensures Next(t, e).delivered == t.delivered && !Room(Next(t, e))
  {
    if t.point == Check {
      LooksEmpty(t);
    }
  }

  // ---------------------------------------------------------------- in place

  /** The console's fields, and the variables of the reader, which keep their values while an interrupt runs. */
  class Terminal {
    const buffer: array<char>
    var bufferRead: nat
    var bufferWrite: nat
    var mode: nat
    var point: Point
    var c: char
    var count: nat
    var len: nat
    var destination: string
    var written: string
    ghost var added: string
    ghost var start: nat

    ghost function Now(): State
      reads this, buffer
    {
      State(buffer[..], bufferRead, bufferWrite, mode, point, c, count, len, added, destination, start, written)
    }

    /** `console_setup`. */
    constructor ()
      ensures fresh(buffer) && Now() == Boot(CANON)
    {
      buffer := new char[LENGTH](_ => '\0');
      bufferRead, bufferWrite, mode := 0, 0, CANON;
      point, c, count, len, destination, written := Returned, '\0', 0, 0, "", "";
      added, start := "", 0;
      new;
      assert buffer[..] == Boot(CANON).buffer;
    }

    method SetMode(mode: nat)
      requires Now().Shape()
      modifies this`mode
      ensures Now() == old(Now()).(mode := mode)
    {
      this.mode := mode;
    }

    method AddCharacter(c: char)
      requires Now().Shape()
      modifies this, buffer
      ensures Now() == Next(old(Now()), Add(c))
    {
      buffer[bufferWrite] := c;
      bufferWrite := bufferWrite + 1;
      if bufferWrite == LENGTH {
        bufferWrite := 0;
      }
      added := added + [c];
    }

    method Read(len: nat)
      requires Now().Shape() && point == Returned
      modifies this
      ensures Now() == Next(old(Now()), Call(len))
    {
      this.len, count, start := len, 0, |destination|;
      point := if len == 0 then Returned else Check;
    }

    method Proceed()
      requires Now().Shape()
      modifies this
      ensures Now() == Next(old(Now()), Step)
      ensures old(point) == Echo ==>
          && (mode == 0 || mode == 1 ==> written == old(written))
          && (mode == 2 || mode == 3 ==> written == old(written) + [old(c)])
      ensures old(point) == Test ==>
          && (mode == 0 || mode == 2 ==> (point == Returned <==> count == len))
          && (mode == 1 || mode == 3 ==> (point == Returned <==> count == len || old(c) == '\n'))
    {
      match point {
        case Check =>
          if bufferRead != bufferWrite {
            point := Load;
          }
        case Load =>
          c := buffer[bufferRead];
          point := Copy;
        case Copy =>
          destination := destination + [buffer[bufferRead]];
          point := Advance;
        case Advance =>
          bufferRead := bufferRead + 1;
          point := Wrap;
        case Wrap =>
          if bufferRead == LENGTH {
            bufferRead := 0;
          }
          point := Count;
        case Count =>
          count := count + 1;
          point := Echo;
        case Echo =>
          if mode / ECHO % 2 == 1 {
            written := written + [c];
          }
          point := Test;
        case Test =>
          point := if count == len || (c == '\n' && mode / CANON % 2 == 1) then Returned else Check;
        case Returned =>
      }
    }

    /** The console under a schedule of interrupts, calls and steps. */
    method Follow(es: seq<Event>)
      requires Now().Shape()
      modifies this, buffer
      ensures Now() == Run(old(Now()), es)
    {
      for i := 0 to |es|
        invariant Now().Shape() && Now() == Run(old(Now()), es[..i])
      {
        assert es[..i + 1][..i] == es[..i];
        match es[i] {
          case Add(c) =>
            AddCharacter(c);
          case Call(length) =>
            if point == Returned {
              Read(length);
            }
          case Step =>
            Proceed();
        }
      }
      assert es[..|es|] == es;
    }
  }
}
