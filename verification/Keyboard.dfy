/** src/kb.c: the key buffer shared by the interrupt handler and getchar_int. */
module KeyboardModel {

  /** Where getchar_int is: in its wait loop, past it, between cli and the shift, between the shift
      and sti, between sti and the return. */
  datatype Phase = Waiting | Awake | Masked | Shifted | Open

  /** A key interrupt is delivered, or getchar_int takes its next step. */
  datatype Event = Key(c: int) | Turn

  datatype State = State(buf: seq<int>, end: int, phase: Phase, pushed: seq<int>, returned: seq<int>)

  const SIZE := 257

  ghost predicate Shape(s: State) {
    |s.buf| == SIZE && 0 <= s.end < 256
  }

  function Init(buf: seq<int>): State {
    State(buf, 0, Waiting, [], [])
  }

  /** No interrupt is delivered between cli and sti. */
  predicate Delivered(s: State) {
    s.phase != Masked && s.phase != Shifted
  }

  /** The end index is an unsigned char. */
  function Push(s: State, c: int): (r: State)
    requires Shape(s)
    ensures Shape(r)
  {
    var end := (s.end + 1) % 256;
    s.(end := end, buf := s.buf[end := c], pushed := s.pushed + [c])
  }

  function Advance(s: State): (r: State)
    requires Shape(s)
    ensures Shape(r)
  {
    match s.phase
    case Waiting => if s.end == 0 then s else s.(phase := Awake)
    case Awake => s.(phase := Masked)
    case Masked => s.(buf := s.buf[1..s.end + 1] + s.buf[s.end..], end := (s.end + 255) % 256, phase := Shifted)
    case Shifted => s.(phase := Open)
    case Open => s.(phase := Waiting, returned := s.returned + [s.buf[0]])
  }

  function Step(s: State, e: Event): (r: State)
    requires Shape(s)
    ensures Shape(r)
  {
    match e
    case Key(c) => if Delivered(s) then Push(s, c) else s
    case Turn => Advance(s)
  }

  function Run(s: State, events: seq<Event>): (r: State)
    requires Shape(s)
    ensures Shape(r)
    decreases events
  {
    if events == [] then s else Run(Step(s, events[0]), events[1..])
  }

  // ----- what the buffer holds

  /** The keys that have been pushed and not returned: the one about to be returned, if any, then
      those in line. */
  function Queue(s: State): (q: seq<int>)
    requires Shape(s)
  {
    if s.phase == Shifted || s.phase == Open then s.buf[..s.end + 1] else s.buf[1..s.end + 1]
  }

  /** No key is lost, made up, or out of order. */
  ghost predicate Accounted(s: State)
    requires Shape(s)
  {
    s.pushed == s.returned + Queue(s)
  }

  ghost predicate Inv(s: State) {
    Shape(s) && Accounted(s) && (s.phase == Awake || s.phase == Masked ==> s.end > 0)
  }

  /** The event is the 256th key in line. */
  predicate Overflow(s: State, e: Event) {
    e.Key? && Delivered(s) && s.end == 255
  }

  lemma StepKeeps(s: State, e: Event)
    requires Inv(s) && !Overflow(s, e)
    ensures Inv(Step(s, e))
  {
    match e
    case Key(c) =>
      if Delivered(s) {
        PushKeeps(s, c);
      }
    case Turn =>
      if s.phase == Masked {
        ShiftKeeps(s);
      } else if s.phase == Open {
        assert Queue(s) == [s.buf[0]] + Queue(Advance(s));
      }
  }

  lemma PushKeeps(s: State, c: int)
    requires Inv(s) && Delivered(s) && s.end < 255
    ensures Inv(Push(s, c))
  {
    assert Queue(Push(s, c)) == Queue(s) + [c];
  }

  lemma ShiftKeeps(s: State)
    requires Inv(s) && s.phase == Masked
    ensures Inv(Advance(s))
  {
    assert Queue(Advance(s)) == Queue(s);
  }

  /** An overflow forgets every key in line. */
  lemma OverflowLoses(s: State, e: Event)
    requires Inv(s) && Overflow(s, e)
    ensures !Accounted(Step(s, e))
  {
    assert |Queue(Step(s, e))| <= 1;
    assert |Queue(s)| >= 255;
  }

  predicate NeverOverflows(s: State, events: seq<Event>)
    requires Shape(s)
    decreases events
  {
    events == [] || (!Overflow(s, events[0]) && NeverOverflows(Step(s, events[0]), events[1..]))
  }

  ghost predicate AlwaysAccounted(s: State, events: seq<Event>)
    requires Shape(s)
  {
    forall n :: 0 <= n <= |events| ==> Accounted(Run(s, events[..n]))
  }

  /** Every state of the run accounts for every key exactly when there are never 256 in line. */
  lemma {:induction false} AccountedIff(s: State, events: seq<Event>)
    requires Inv(s)
    ensures AlwaysAccounted(s, events) <==> NeverOverflows(s, events)
    decreases events
  {
    if events == [] {
      assert AlwaysAccounted(s, events);
    } else {
      var t := Step(s, events[0]);
      if Overflow(s, events[0]) {
        OverflowLoses(s, events[0]);
        assert events[..1] == [events[0]];
        assert Run(s, events[..1]) == Run(t, []) == t;
      } else {
        StepKeeps(s, events[0]);
        AccountedIff(t, events[1..]);
        AccountedShift(s, events);
      }
    }
  }

  lemma AccountedShift(s: State, events: seq<Event>)
    requires Inv(s) && events != []
    ensures AlwaysAccounted(s, events) <==> AlwaysAccounted(Step(s, events[0]), events[1..])
  {
    var t, rest := Step(s, events[0]), events[1..];
    forall n | 1 <= n <= |events|
      ensures Run(s, events[..n]) == Run(t, rest[..n - 1])
    {
      assert events[..n][1..] == rest[..n - 1];
    }
    if AlwaysAccounted(s, events) {
      forall n | 0 <= n <= |rest|
        ensures Accounted(Run(t, rest[..n]))
      {
        assert Run(s, events[..n + 1]) == Run(t, rest[..n + 1 - 1]);
      }
    }
    if AlwaysAccounted(t, rest) {
      forall n | 0 <= n <= |events|
        ensures Accounted(Run(s, events[..n]))
      {
        if n > 0 {
          assert Run(s, events[..n]) == Run(t, rest[..n - 1]);
        }
      }
    }
  }

  lemma {:induction false} RunKeeps(s: State, events: seq<Event>)
    requires Inv(s) && NeverOverflows(s, events)
    ensures Inv(Run(s, events))
    decreases events
  {
    if events != [] {
      StepKeeps(s, events[0]);
      RunKeeps(Step(s, events[0]), events[1..]);
    }
  }

  /** The codes of the keys that arrive while interrupts are on. */
  function Codes(s: State, events: seq<Event>): (l: seq<int>)
    requires Shape(s)
    decreases events
  {
    if events == [] then []
    else
      var rest := Codes(Step(s, events[0]), events[1..]);
      if events[0].Key? && s.phase != Masked && s.phase != Shifted then [events[0].c] + rest else rest
  }

  lemma {:induction false} PushedIsCodes(s: State, events: seq<Event>)
    requires Shape(s)
    ensures Run(s, events).pushed == s.pushed + Codes(s, events)
    decreases events
  {
    if events != [] {
      PushedIsCodes(Step(s, events[0]), events[1..]);
    }
  }

  /** Under every interleaving the characters returned are a prefix of the keys that arrived, in their
      order; the rest are in the buffer. */
  lemma ReturnedIsPrefix(buf: seq<int>, events: seq<Event>)
    requires |buf| == SIZE && NeverOverflows(Init(buf), events)
    ensures var r := Run(Init(buf), events); Codes(Init(buf), events) == r.returned + Queue(r)
  {
    RunKeeps(Init(buf), events);
    PushedIsCodes(Init(buf), events);
  }

  /** Left alone after them, getchar_int comes to return every key that arrived, in order, and no other. */
  lemma DrainedIsCodes(buf: seq<int>, events: seq<Event>)
    requires |buf| == SIZE && NeverOverflows(Init(buf), events) && Run(Init(buf), events).phase == Waiting
    ensures var r := Run(Init(buf), events);
      Run(r, seq(5 * r.end, _ => Turn)).returned == Codes(Init(buf), events)
  {
    RunKeeps(Init(buf), events);
    PushedIsCodes(Init(buf), events);
    Drains(Run(Init(buf), events));
  }

  /** Whatever is in line comes out: each key takes five steps of getchar_int. */
  lemma {:induction false} Drains(s: State)
    requires Inv(s) && s.phase == Waiting
    ensures var r := Run(s, seq(5 * s.end, _ => Turn));
      r.returned == s.pushed && r.end == 0 && r.phase == Waiting
    decreases s.end
  {
    var n := s.end;
    if n > 0 {
      var t := Advance(Advance(Advance(Advance(Advance(s)))));
      StepKeeps(s, Turn);
      StepKeeps(Advance(s), Turn);
      StepKeeps(Advance(Advance(s)), Turn);
      StepKeeps(Advance(Advance(Advance(s))), Turn);
      StepKeeps(Advance(Advance(Advance(Advance(s)))), Turn);
      assert t.phase == Waiting && t.end == n - 1 && t.pushed == s.pushed;
      Drains(t);
      FiveTurns(s, seq(5 * (n - 1), _ => Turn));
      assert seq(5 * n, _ => Turn) == [Turn, Turn, Turn, Turn, Turn] + seq(5 * (n - 1), _ => Turn);
    }
  }

  /** What the shift loop leaves when the first n slots have moved down. */
  lemma ShiftedIs(was: seq<int>, now: seq<int>, n: nat)
    requires n < |was| == |now|
    requires forall j :: 0 <= j < n ==> now[j] == was[j + 1]
    requires forall j :: n <= j < |was| ==> now[j] == was[j]
    ensures now == was[1..n + 1] + was[n..]
  {
  }

  lemma FiveTurns(s: State, rest: seq<Event>)
    requires Shape(s)
    ensures Run(s, [Turn, Turn, Turn, Turn, Turn] + rest) == Run(Advance(Advance(Advance(Advance(Advance(s))))), rest)
  {
    var t := [Turn];
    RunTurn(s, t + t + t + t + rest);
    RunTurn(Advance(s), t + t + t + rest);
    RunTurn(Advance(Advance(s)), t + t + rest);
    RunTurn(Advance(Advance(Advance(s))), t + rest);
    RunTurn(Advance(Advance(Advance(Advance(s)))), rest);
    assert [Turn, Turn, Turn, Turn, Turn] + rest == t + (t + t + t + t + rest);
    assert t + t + t + t + rest == t + (t + t + t + rest);
    assert t + t + t + rest == t + (t + t + rest);
    assert t + t + rest == t + (t + rest);
  }

  lemma RunTurn(s: State, rest: seq<Event>)
    requires Shape(s)
    ensures Run(s, [Turn] + rest) == Run(Advance(s), rest)
  {
    assert ([Turn] + rest)[1..] == rest;
  }
}

/** The buffer as it runs. Each method is one step that an interrupt can come before or after; the
    shift runs with interrupts off, so it is one step. */
module Keyboard {
  import opened KeyboardModel

  class KeyBuffer {
    const keyBuff: array<int>
    var keyBuffEnd: int
    var phase: Phase
    ghost var pushed: seq<int>
    ghost var returned: seq<int>

    constructor ()
      ensures Valid() && fresh(keyBuff) && exists buf :: St() == Init(buf)
    {
      keyBuff := new int[SIZE](_ => 0);
      keyBuffEnd, phase, pushed, returned := 0, Waiting, [], [];
      new;
      assert St() == Init(keyBuff[..]);
    }

    ghost predicate Valid()
      reads this
    {
      keyBuff.Length == SIZE && 0 <= keyBuffEnd < 256
    }

    ghost function St(): (s: State)
      requires Valid()
      reads this, keyBuff
      ensures Shape(s)
    {
      State(keyBuff[..], keyBuffEnd, phase, pushed, returned)
    }

    /** The end of keyboard_handler. */
    method KeyInterrupt(asciiCode: int)
      requires Valid() && Delivered(St())
      modifies this, keyBuff
      ensures Valid() && St() == Step(old(St()), Key(asciiCode))
      ensures pushed == old(pushed) + [asciiCode] && keyBuff[keyBuffEnd] == asciiCode
    {
      keyBuffEnd := (keyBuffEnd + 1) % 256;
      keyBuff[keyBuffEnd] := asciiCode;
      pushed := pushed + [asciiCode];
    }

    /** One turn of the wait loop. */
    method Wait()
      requires Valid() && phase == Waiting
      modifies this
      ensures Valid() && St() == Step(old(St()), Turn)
    {
      if keyBuffEnd != 0 {
        phase := Awake;
      }
    }

    method Cli()
      requires Valid() && phase == Awake
      modifies this
      ensures Valid() && St() == Step(old(St()), Turn)
    {
      phase := Masked;
    }

    /** The shift loop. */
    method ShiftDown(n: nat)
      requires n < keyBuff.Length
      modifies keyBuff
      ensures keyBuff[..] == old(keyBuff[1..n + 1] + keyBuff[n..])
    {
      var i := 0;
      while i < n
        invariant 0 <= i <= n
        invariant forall j :: 0 <= j < i ==> keyBuff[j] == old(keyBuff[j + 1])
        invariant forall j :: i <= j < keyBuff.Length ==> keyBuff[j] == old(keyBuff[j])
      {
        keyBuff[i] := keyBuff[i + 1];
        i := i + 1;
      }
      ShiftedIs(old(keyBuff[..]), keyBuff[..], n);
      assert old(keyBuff[1..n + 1] + keyBuff[n..]) == old(keyBuff[..])[1..n + 1] + old(keyBuff[..])[n..];
    }

    method Shift()
      requires Valid() && phase == Masked
      modifies this, keyBuff
      ensures Valid() && St() == Step(old(St()), Turn)
    {
      ShiftDown(keyBuffEnd);
      keyBuffEnd := (keyBuffEnd + 255) % 256;
      phase := Shifted;
    }

    method Sti()
      requires Valid() && phase == Shifted
      modifies this
      ensures Valid() && St() == Step(old(St()), Turn)
    {
      phase := Open;
    }

    method Return() returns (c: int)
      requires Valid() && phase == Open
      modifies this
      ensures Valid() && St() == Step(old(St()), Turn) && returned == old(returned) + [c]
    {
      c := keyBuff[0];
      phase := Waiting;
      returned := returned + [c];
    }
  }
}
