/** The animation rotation: the Timer0 interrupt counts overflows in
    g_Counter and, once the count passes ISR_TIMER, moves g_LED_Counter on and
    returns control to the checkpoint in main, whose switch starts the
    animation g_LED_Counter names. */
module Scheduler {
  import opened Wrappers

  /** ISR_TIMER: the overflow count after which the animation changes. */
  const IsrTimer: int := 15531
  /** Overflows per animation: the counter runs 0..ISR_TIMER. */
  const Period: int := IsrTimer + 1
  /** Cases 0..8 of the switch in main. */
  const Animations: int := 9

  datatype Animation =
    | SineWave | Paparazzi | HSweep | Diagonal | VSweep
    | Checkerboard | Swirl | ArrowLShift | Text

  /** The switch in main: the animation of each case, None for `default`. */
  function CaseOf(i: int): (r: Option<Animation>)
    ensures r.Some? <==> 0 <= i < Animations
  {
    match i
    case 0 => Some(SineWave)
    case 1 => Some(Paparazzi)
    case 2 => Some(HSweep)
    case 3 => Some(Diagonal)
    case 4 => Some(VSweep)
    case 5 => Some(Checkerboard)
    case 6 => Some(Swirl)
    case 7 => Some(ArrowLShift)
    case 8 => Some(Text)
    case _ => None
  }

  /** The case label under which the switch starts a.  */
  function IndexOf(a: Animation): (i: int)
    ensures 0 <= i < Animations
  {
    match a
    case SineWave => 0
    case Paparazzi => 1
    case HSweep => 2
    case Diagonal => 3
    case VSweep => 4
    case Checkerboard => 5
    case Swirl => 6
    case ArrowLShift => 7
    case Text => 8
  }

  /** Each animation has exactly one case, and each case one animation. */
  lemma CasesAreAnimations(i: int, a: Animation)
    ensures CaseOf(IndexOf(a)) == Some(a)
    ensures CaseOf(i) == Some(a) <==> i == IndexOf(a)
  {
  }

  /** The globals the rotation touches.  `atCheckpoint` stands for control
      being back at the top of main's loop: set by a rotation, cleared when
      the switch starts an animation. */
  datatype State = State(counter: int, ledCounter: int, tmr0if: bool, tmr0ie: bool,
                         atCheckpoint: bool)

  /** The ISR: nothing unless TMR0IF and TMR0IE; otherwise the flag is
      cleared and `++g_Counter > ISR_TIMER` rotates. */
  function Isr(s: State): (r: State)
    ensures !(s.tmr0if && s.tmr0ie) ==> r == s
    ensures s.tmr0if && s.tmr0ie ==> !r.tmr0if && r.tmr0ie
    ensures s.tmr0if && s.tmr0ie && s.counter + 1 > IsrTimer ==>
              r.counter == 0 && r.ledCounter == s.ledCounter + 1 && r.atCheckpoint
    ensures s.tmr0if && s.tmr0ie && s.counter + 1 <= IsrTimer ==>
              r.counter == s.counter + 1 && r.ledCounter == s.ledCounter &&
              r.atCheckpoint == s.atCheckpoint
  {
    if s.tmr0if && s.tmr0ie then
      if s.counter + 1 > IsrTimer then
        s.(tmr0if := false, counter := 0, ledCounter := s.ledCounter + 1, atCheckpoint := true)
      else
        s.(tmr0if := false, counter := s.counter + 1)
    else
      s
  }

  /** One Timer0 overflow: the hardware raises TMR0IF and the ISR runs. */
  function Tick(s: State): (r: State) {
    Isr(s.(tmr0if := true))
  }

  /** n Timer0 overflows in a row. */
  function Ticks(s: State, n: nat): (r: State)
    decreases n
  {
    if n == 0 then s else Tick(Ticks(s, n - 1))
  }

  /** g_Counter stays within 0..ISR_TIMER. */
  lemma IsrKeepsCounter(s: State)
    requires 0 <= s.counter <= IsrTimer
    ensures 0 <= Isr(s).counter <= IsrTimer
  {
  }

  /** One step of counting modulo the period. */
  lemma CountStep(a: nat, r: int, q: int)
    requires r == a % Period && q == a / Period
    ensures r + 1 < Period ==> (a + 1) % Period == r + 1 && (a + 1) / Period == q
    ensures r + 1 == Period ==> (a + 1) % Period == 0 && (a + 1) / Period == q + 1
  {
    assert a == Period * q + r;
    if r + 1 < Period {
      assert a + 1 == Period * q + (r + 1);
    } else {
      assert a + 1 == Period * (q + 1);
    }
  }

  /** After n overflows with the interrupt enabled, g_Counter is the total
      count modulo 15532 and g_LED_Counter has risen once per 15532. */
  lemma {:induction false} TicksCount(s: State, n: nat)
    requires s.tmr0ie && 0 <= s.counter <= IsrTimer
    ensures Ticks(s, n).counter == (s.counter + n) % Period
    ensures Ticks(s, n).ledCounter == s.ledCounter + (s.counter + n) / Period
    ensures Ticks(s, n).tmr0ie
    decreases n
  {
    if n > 0 {
      var m: nat := n - 1;
      TicksCount(s, m);
      var t := Ticks(s, m);
      var a: nat := s.counter + m;
      CountStep(a, t.counter, t.ledCounter - s.ledCounter);
      assert Ticks(s, n) == Tick(t);
    }
  }

  /** With the interrupt enabled, g_LED_Counter moves on at the overflow that
      wraps g_Counter and at no other. */
  lemma TickRotates(s: State)
    requires s.tmr0ie && 0 <= s.counter <= IsrTimer
    ensures Tick(s).ledCounter == s.ledCounter + (if s.counter == IsrTimer then 1 else 0)
    ensures Tick(s).atCheckpoint <==> s.atCheckpoint || s.counter == IsrTimer
  {
  }

  /** What one pass of main's loop does at the checkpoint. */
  datatype Pass = Pass(next: State, started: Option<Animation>)

  /** The switch: a case 0..8 starts its animation and leaves the
      checkpoint; `default` sets g_LED_Counter to 0 and starts nothing. */
  function Dispatch(s: State): (p: Pass)
    requires s.atCheckpoint
    ensures p.started == CaseOf(s.ledCounter)
    ensures p.started.Some? ==> p.next == s.(atCheckpoint := false)
    ensures p.started.None? ==> p.next == s.(ledCounter := 0)
  {
    match CaseOf(s.ledCounter)
    case Some(a) => Pass(s.(atCheckpoint := false), Some(a))
    case None => Pass(s.(ledCounter := 0), None)
  }

  /** Main's loop from the checkpoint until an animation starts: at most one
      pass through `default` and then one real case. */
  function Settle(s: State): (p: Pass)
    requires s.atCheckpoint
    ensures p.started.Some?
  {
    var p := Dispatch(s);
    if p.started.Some? then p else Dispatch(p.next)
  }

  /** The loop starts case g_LED_Counter if it is 0..8 and case 0 otherwise,
      and g_LED_Counter then names the running animation. */
  lemma SettleStarts(s: State)
    requires s.atCheckpoint
    ensures var i := if 0 <= s.ledCounter < Animations then s.ledCounter else 0;
            Settle(s).started == CaseOf(i) && Settle(s).next.ledCounter == i
    ensures !Settle(s).next.atCheckpoint
  {
  }

  /** The rotation: while animation i runs, the overflow that wraps
      g_Counter brings main to start animation (i + 1) % 9. */
  lemma RotationNext(s: State, i: int)
    requires 0 <= i < Animations && s.ledCounter == i && !s.atCheckpoint
    requires s.tmr0ie && s.counter == IsrTimer
    ensures Tick(s).atCheckpoint
    ensures Settle(Tick(s)).started == CaseOf((i + 1) % Animations)
    ensures Settle(Tick(s)).next.ledCounter == (i + 1) % Animations
    ensures Settle(Tick(s)).next.counter == 0
  {
    SettleStarts(Tick(s));
  }

  /** Between rotations nothing but g_Counter moves: while the count stays
      within ISR_TIMER, g_LED_Counter and the checkpoint flag keep their
      values. */
  lemma {:induction false} QuietTicks(s: State, n: nat)
    requires s.tmr0ie && 0 <= s.counter && s.counter + n <= IsrTimer
    ensures Ticks(s, n).counter == s.counter + n
    ensures Ticks(s, n).ledCounter == s.ledCounter
    ensures Ticks(s, n).atCheckpoint == s.atCheckpoint
    ensures Ticks(s, n).tmr0ie
    decreases n
  {
    if n > 0 {
      var m: nat := n - 1;
      QuietTicks(s, m);
    }
  }

  /** The overflows left until the next rotation wrap g_Counter exactly once:
      g_Counter is back at 0, g_LED_Counter has moved on by one and control is
      at the checkpoint. */
  lemma WrapTicks(s: State)
    requires s.tmr0ie && 0 <= s.counter <= IsrTimer
    ensures var t := Ticks(s, Period - s.counter);
            t.counter == 0 && t.ledCounter == s.ledCounter + 1 && t.atCheckpoint && t.tmr0ie
  {
    var m: nat := IsrTimer - s.counter;
    QuietTicks(s, m);
    assert Ticks(s, Period - s.counter) == Tick(Ticks(s, m));
  }

  /** One rotation of the running machine: Timer0 overflows until g_Counter
      wraps, then main's loop runs from the checkpoint until an animation
      starts. */
  function Rotate(s: State): (p: Pass)
    requires s.tmr0ie && 0 <= s.counter <= IsrTimer
    ensures p.started.Some? && p.started == CaseOf(p.next.ledCounter)
    ensures p.next.counter == 0 && p.next.tmr0ie && !p.next.atCheckpoint
  {
    WrapTicks(s);
    var t := Ticks(s, Period - s.counter);
    SettleStarts(t);
    Settle(t)
  }

  /** From a running case i, the rotation starts case (i + 1) % 9. */
  lemma RotateStep(s: State)
    requires s.tmr0ie && 0 <= s.counter <= IsrTimer
    requires 0 <= s.ledCounter < Animations
    ensures Rotate(s).next.ledCounter == (s.ledCounter + 1) % Animations
    ensures Rotate(s).started == CaseOf((s.ledCounter + 1) % Animations)
  {
    WrapTicks(s);
    SettleStarts(Ticks(s, Period - s.counter));
  }

  /** The machine after k rotations. */
  function Rotations(s: State, k: nat): (r: State)
    requires s.tmr0ie && 0 <= s.counter <= IsrTimer
    ensures r.tmr0ie && 0 <= r.counter <= IsrTimer
    ensures k > 0 ==> r.counter == 0 && !r.atCheckpoint
    decreases k
  {
    if k == 0 then s else Rotate(Rotations(s, k - 1)).next
  }

  /** One more step of counting modulo 9. */
  lemma ModNineStep(a: nat, r: int)
    requires r == a % Animations
    ensures (r + 1) % Animations == (a + 1) % Animations
  {
    assert a == Animations * (a / Animations) + r;
  }

  /** k rotations of the machine from a running case i reach case
      (i + k) % 9, so after nine rotations the same animation runs again. */
  lemma {:induction false} RotationsCycle(s: State, k: nat)
    requires s.tmr0ie && 0 <= s.counter <= IsrTimer
    requires 0 <= s.ledCounter < Animations
    ensures Rotations(s, k).ledCounter == (s.ledCounter + k) % Animations
    decreases k
  {
    if k > 0 {
      var m: nat := k - 1;
      RotationsCycle(s, m);
      var t := Rotations(s, m);
      RotateStep(t);
      var a: nat := s.ledCounter + m;
      ModNineStep(a, t.ledCounter);
    }
  }

  /** The number of rotations from case i to case j. */
  lemma Distance(i: int, j: int) returns (k: nat)
    requires 0 <= i < Animations && 0 <= j < Animations
    ensures k < Animations && (i + k) % Animations == j
  {
    if i <= j {
      k := j - i;
      assert i + k == j;
    } else {
      k := j + Animations - i;
      assert i + k == j + Animations;
    }
  }

  /** Within nine rotations from any running case, every animation gets its
      turn. */
  lemma RotationReaches(s: State, a: Animation)
    requires s.tmr0ie && 0 <= s.counter <= IsrTimer
    requires 0 <= s.ledCounter < Animations
    ensures exists k: nat :: k < Animations && CaseOf(Rotations(s, k).ledCounter) == Some(a)
  {
    var j := IndexOf(a);
    var k := Distance(s.ledCounter, j);
    RotationsCycle(s, k);
    CasesAreAnimations(j, a);
    assert CaseOf(Rotations(s, k).ledCounter) == Some(a);
  }

  /** An animation returning: control is back at the top of main's loop,
      and nothing else changes. */
  function Return(s: State): (r: State)
    ensures r.atCheckpoint && r.(atCheckpoint := s.atCheckpoint) == s
  {
    s.(atCheckpoint := true)
  }

  /** Whenever a running animation returns, main's loop starts the same case
      again, with g_LED_Counter unchanged.  This holds for every case; the
      ones whose call does return are LED_Paparazzi, LED_H_Sweep,
      LED_Diagonal, LED_VSweep and LED_Checkerboard, while the other four
      loop forever. */
  lemma ReturnRestarts(s: State, a: Animation)
    requires !s.atCheckpoint && CaseOf(s.ledCounter) == Some(a)
    ensures Settle(Return(s)).started == Some(a)
    ensures Settle(Return(s)).next == s
  {
  }

  /** The rotation globals as the firmware keeps them. */
  class Controller {
    var counter: int       // g_Counter
    var ledCounter: int    // g_LED_Counter
    var tmr0if: bool       // TMR0IF
    var tmr0ie: bool       // TMR0IE
    var atCheckpoint: bool // control is at the switch in main

    function Current(): (s: State)
      reads this
    {
      State(counter, ledCounter, tmr0if, tmr0ie, atCheckpoint)
    }

    /** Power-on: both counters 0, Timer0 interrupt enabled by Sys_Init,
        main about to reach the switch. */
    constructor ()
      ensures Current() == State(0, 0, false, true, true)
    {
      counter, ledCounter := 0, 0;
      tmr0if, tmr0ie := false, true;
      atCheckpoint := true;
    }

    /** The interrupt routine's counter part. */
    method Interrupt()
      modifies this
      ensures Current() == Isr(old(Current()))
    {
      if tmr0if && tmr0ie {
        tmr0if := false;
        counter := counter + 1;
        if counter > IsrTimer {
          ledCounter := ledCounter + 1;
          counter := 0;
          atCheckpoint := true;
        }
      }
    }

    /** A finite animation's call returning into main's loop. */
    method AnimationReturns()
      modifies this
      ensures Current() == Return(old(Current()))
    {
      atCheckpoint := true;
    }

    /** One pass of main's switch at the checkpoint. */
    method Switch() returns (started: Option<Animation>)
      requires atCheckpoint
      modifies this
      ensures Pass(Current(), started) == Dispatch(old(Current()))
    {
      started := None;
      match ledCounter {
        case 8 => started := Some(Text);
        case 1 => started := Some(Paparazzi);
        case 2 => started := Some(HSweep);
        case 3 => started := Some(Diagonal);
        case 4 => started := Some(VSweep);
        case 5 => started := Some(Checkerboard);
        case 6 => started := Some(Swirl);
        case 7 => started := Some(ArrowLShift);
        case 0 => started := Some(SineWave);
        case _ => ledCounter := 0;
      }
      if started.Some? {
        atCheckpoint := false;
      }
    }
  }
}
