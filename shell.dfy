/** The interactive session around the engine: mouse clicks that set or clear
    one cell, the key commands (S steps once, Space toggles the pause, Up and
    Down change the step speed, R resets), and the per-frame tick that
    advances the world on every stepSpeed-th frame while not paused.

    SessionState and the functions over it are the specification; the class
    Session holds the world in place and its methods are proved against them. */
module Shell {
  import opened Engine

  datatype MouseButton = UnknownButton | Left | Middle | Right | X1 | X2

  datatype Key = S | Space | Up | Down | R | OtherKey

  /** The events the loop reacts to; every other kind is OtherEvent. */
  datatype Event =
    | Quit
    | MouseButtonUp(button: MouseButton, px: int, py: int)
    | KeyUp(key: Key)
    | OtherEvent

  /** The step speed at start and after a reset. */
  const DefaultStepSpeed: nat := 3

  /** The session's variables: the world, the pause flag, the step speed
      (frames per generation, larger is slower), the generation counter and
      the frame counter. */
  datatype SessionState = SessionState(grid: Grid, pause: bool, stepSpeed: nat, step: nat, cycles: nat)

  /** The step speed never drops below 1, so the frame gating is defined. */
  predicate WellFormed(s: SessionState) {
    IsGrid(s.grid) && s.stepSpeed >= 1
  }

  function Initial(): (s: SessionState)
    ensures WellFormed(s)
  {
    SessionState(Dead(), false, DefaultStepSpeed, 0, 0)
  }

  /** A pixel of the window, which is N * CellSize pixels on each side. */
  predicate InWindow(px: int, py: int) {
    0 <= px < N * CellSize && 0 <= py < N * CellSize
  }

  /** The buttons whose release edits the world. */
  predicate Edits(button: MouseButton) {
    button == Left || button == Right
  }

  /** Releases that edit the world are taken inside the window; releases of
      the other buttons may come from anywhere. */
  predicate Admissible(e: Event) {
    e.MouseButtonUp? && Edits(e.button) ==> InWindow(e.px, e.py)
  }

  /** The world with the cell in column x, row y set to `alive`; no other cell changes. */
  function SetCell(g: Grid, x: int, y: int, alive: bool): (r: Grid)
    requires IsGrid(g) && BoundCheck(x, y, N)
    ensures IsGrid(r) && r[y][x] == alive
    ensures forall j, i :: 0 <= j < N && 0 <= i < N && (i, j) != (x, y) ==> r[j][i] == g[j][i]
  {
    g[y := g[y][x := alive]]
  }

  /** The effect of one event. Quit leaves the state as it is: the loop ends
      before anything else happens. */
  function Apply(s: SessionState, e: Event): (r: SessionState)
    requires WellFormed(s) && Admissible(e)
    ensures WellFormed(r)
  {
    match e
    case MouseButtonUp(button, px, py) =>
      if button == Left then s.(grid := SetCell(s.grid, px / CellSize, py / CellSize, true))
      else if button == Right then s.(grid := SetCell(s.grid, px / CellSize, py / CellSize, false))
      else s
    case KeyUp(key) =>
      (match key
       case S => s.(grid := Step(s.grid), step := s.step + 1)
       case Space => s.(pause := !s.pause)
       case Up => s.(stepSpeed := s.stepSpeed + 1)
       case Down => if s.stepSpeed != 1 then s.(stepSpeed := s.stepSpeed - 1) else s
       case R => s.(grid := Dead(), cycles := 0, stepSpeed := DefaultStepSpeed, pause := false, step := 0)
       case OtherKey => s)
    case Quit => s
    case OtherEvent => s
  }

  /** Whether the frame with frame counter s.cycles advances the world. */
  predicate Advances(s: SessionState)
    requires s.stepSpeed >= 1
  {
    !s.pause && s.cycles % s.stepSpeed == 0
  }

  /** The end of a frame: one generation when the frame advances, then the
      frame counter goes up by one whatever happened. */
  function TickState(s: SessionState): (r: SessionState)
    requires WellFormed(s)
    ensures WellFormed(r) && r.cycles == s.cycles + 1
  {
    var t := if Advances(s) then s.(grid := Step(s.grid), step := s.step + 1) else s;
    t.(cycles := s.cycles + 1)
  }

  /** The events of one frame, in order, up to the first Quit; the flag says
      whether a Quit was met. */
  function RunEvents(s: SessionState, es: seq<Event>): (r: (SessionState, bool))
    requires WellFormed(s) && forall e <- es :: Admissible(e)
    ensures WellFormed(r.0)
    ensures r.1 <==> Quit in es
    decreases |es|
  {
    if es == [] then (s, false)
    else if es[0].Quit? then (s, true)
    else RunEvents(Apply(s, es[0]), es[1..])
  }

  /** One pass of the main loop: the frame's events, then the tick unless a
      Quit ended the loop. */
  function Frame(s: SessionState, es: seq<Event>): (r: (SessionState, bool))
    requires WellFormed(s) && forall e <- es :: Admissible(e)
    ensures WellFormed(r.0)
  {
    var (t, quit) := RunEvents(s, es);
    if quit then (t, true) else (TickState(t), false)
  }

  /** The main loop over a run of frames, stopping at the first Quit. */
  function RunFrames(s: SessionState, frames: seq<seq<Event>>): (r: (SessionState, bool))
    requires WellFormed(s) && forall es <- frames, e <- es :: Admissible(e)
    ensures WellFormed(r.0)
  {
    if frames == [] then (s, false)
    else
      var (t, quit) := RunFrames(s, frames[..|frames| - 1]);
      if quit then (t, true) else Frame(t, frames[|frames| - 1])
  }

  /** The tick advances one generation exactly when the session is not paused
      and the frame counter is a multiple of the step speed; it always counts
      the frame and never changes the pause flag or the step speed. */
  lemma TickGating(s: SessionState)
    requires WellFormed(s)
    ensures TickState(s).pause == s.pause && TickState(s).stepSpeed == s.stepSpeed
    ensures TickState(s).cycles == s.cycles + 1
    ensures !s.pause && s.cycles % s.stepSpeed == 0 ==>
      TickState(s).grid == Step(s.grid) && TickState(s).step == s.step + 1
    ensures s.pause || s.cycles % s.stepSpeed != 0 ==>
      TickState(s).grid == s.grid && TickState(s).step == s.step
  {
  }

  /** n frames without events. */
  function Ticks(s: SessionState, n: nat): (r: SessionState)
    requires WellFormed(s)
    ensures WellFormed(r) && r.cycles == s.cycles + n
    ensures r.pause == s.pause && r.stepSpeed == s.stepSpeed
    decreases n
  {
    if n == 0 then s else Ticks(TickState(s), n - 1)
  }

  // ------------------------------------------------------------ lemmas

  /** Up adds one to the step speed; Down takes one off unless it is 1.
      Neither touches the world, the pause flag or the counters. */
  lemma SpeedCommands(s: SessionState)
    requires WellFormed(s)
    ensures Apply(s, KeyUp(Up)) == s.(stepSpeed := s.stepSpeed + 1)
    ensures Apply(s, KeyUp(Down)) == s.(stepSpeed := if s.stepSpeed > 1 then s.stepSpeed - 1 else 1)
  {
  }

  /** k presses of Down bring the step speed down by k, but never below 1. */
  lemma {:induction false} RepeatedDown(s: SessionState, k: nat)
    requires WellFormed(s)
    ensures forall e <- seq(k, _ => KeyUp(Down)) :: Admissible(e)
    ensures RunEvents(s, seq(k, _ => KeyUp(Down))) ==
      (s.(stepSpeed := if s.stepSpeed > k then s.stepSpeed - k else 1), false)
    decreases k
  {
    var downs := seq(k, _ => KeyUp(Down));
    if k > 0 {
      var t := Apply(s, KeyUp(Down));
      assert downs[1..] == seq(k - 1, _ => KeyUp(Down));
      RepeatedDown(t, k - 1);
    }
  }

  /** The release of a button other than left or right changes nothing,
      wherever the pointer is. */
  lemma OtherButtonsIgnored(s: SessionState, button: MouseButton, px: int, py: int)
    requires WellFormed(s) && !Edits(button)
    ensures Admissible(MouseButtonUp(button, px, py))
    ensures Apply(s, MouseButtonUp(button, px, py)) == s
  {
  }

  /** Space flips the pause flag and nothing else; twice restores the state. */
  lemma TogglePauseTwice(s: SessionState)
    requires WellFormed(s)
    ensures Apply(s, KeyUp(Space)) == s.(pause := !s.pause)
    ensures Apply(Apply(s, KeyUp(Space)), KeyUp(Space)) == s
  {
  }

  /** Running a run of events is running a prefix that has no Quit, then the rest. */
  lemma {:induction false} RunEventsSplit(s: SessionState, es: seq<Event>, i: nat)
    requires WellFormed(s) && forall e <- es :: Admissible(e)
    requires i <= |es| && !RunEvents(s, es[..i]).1
    ensures RunEvents(s, es) == RunEvents(RunEvents(s, es[..i]).0, es[i..])
    decreases i
  {
    if i == 0 {
      assert es[..0] == [] && es[0..] == es;
    } else {
      assert es[..i][0] == es[0];
      assert !es[0].Quit?;
      assert es[..i][1..] == es[1..][..i - 1];
      assert es[1..][i - 1..] == es[i..];
      RunEventsSplit(Apply(s, es[0]), es[1..], i - 1);
    }
  }

  /** After any events without a Quit, a reset gives back the initial state. */
  lemma ResetAfterAnything(s: SessionState, es: seq<Event>)
    requires WellFormed(s) && forall e <- es :: Admissible(e)
    requires Quit !in es
    ensures forall e <- es + [KeyUp(R)] :: Admissible(e)
    ensures RunEvents(s, es + [KeyUp(R)]) == (Initial(), false)
  {
    var all := es + [KeyUp(R)];
    assert all[..|es|] == es;
    assert all[|es|..] == [KeyUp(R)];
    RunEventsSplit(s, all, |es|);
  }

  /** A frame whose last event is a reset ends with the all-dead world, the
      default speed and no pause, and with both counters at 1: the tick at
      frame counter 0 advances (the dead world stays dead) and counts. */
  lemma ResetFrame(s: SessionState, es: seq<Event>)
    requires WellFormed(s) && forall e <- es :: Admissible(e)
    requires Quit !in es
    ensures forall e <- es + [KeyUp(R)] :: Admissible(e)
    ensures Frame(s, es + [KeyUp(R)]) == (SessionState(Dead(), false, DefaultStepSpeed, 1, 1), false)
  {
    ResetAfterAnything(s, es);
    DeadStaysDead();
  }

  /** Whether the frame counter value c + i is a multiple of the step speed k. */
  predicate OnBeat(c: int, i: int, k: nat)
    requires k >= 1
  {
    (c + i) % k == 0
  }

  /** Any k consecutive frame counters hold exactly one multiple of k. */
  lemma OneBeatInWindow(c: nat, k: nat) returns (j: nat)
    requires k >= 1
    ensures j < k && OnBeat(c, j, k)
    ensures forall i :: 0 <= i < k && i != j ==> !OnBeat(c, i, k)
  {
    var q, m := c / k, c % k;
    assert c == q * k + m;
    if m == 0 {
      j := 0;
    } else {
      j := k - m;
      assert (q + 1) * k == q * k + k;
      ModOfMultiplePlus(q + 1, k, 0);
    }
    forall i | 0 <= i < k && i != j ensures !OnBeat(c, i, k) {
      if m + i < k {
        ModOfMultiplePlus(q, k, m + i);
      } else {
        assert (q + 1) * k == q * k + k;
        ModOfMultiplePlus(q + 1, k, m + i - k);
      }
    }
  }

  /** x * k + k <= y * k when x < y and k is positive. */
  lemma {:induction false} MulLess(x: int, y: int, k: int)
    requires x < y && k >= 1
    ensures x * k + k <= y * k
    decreases y - x
  {
    if x + 1 < y {
      MulLess(x + 1, y, k);
    }
    assert (x + 1) * k == x * k + k;
  }

  /** The remainder of q * k + t is t when 0 <= t < k. */
  lemma ModOfMultiplePlus(q: int, k: int, t: int)
    requires k >= 1 && 0 <= t < k
    ensures (q * k + t) % k == t
  {
    var a := q * k + t;
    var q', t' := a / k, a % k;
    assert a == q' * k + t';
    if q' < q {
      MulLess(q', q, k);
    } else if q < q' {
      MulLess(q, q', k);
    }
  }

  /** Frames during which the world does not advance only count. */
  lemma {:induction false} QuietTicks(s: SessionState, n: nat)
    requires WellFormed(s)
    requires forall i :: 0 <= i < n ==> s.pause || !OnBeat(s.cycles, i, s.stepSpeed)
    ensures Ticks(s, n) == s.(cycles := s.cycles + n)
    decreases n
  {
    if n > 0 {
      assert !Advances(s) by {
        assert s.pause || !OnBeat(s.cycles, 0, s.stepSpeed);
      }
      var t := TickState(s);
      forall i | 0 <= i < n - 1 ensures t.pause || !OnBeat(t.cycles, i, t.stepSpeed) {
        assert s.pause || !OnBeat(s.cycles, i + 1, s.stepSpeed);
      }
      QuietTicks(t, n - 1);
    }
  }

  lemma {:induction false} TicksAdd(s: SessionState, a: nat, b: nat, n: nat)
    requires WellFormed(s) && n == a + b
    ensures Ticks(s, n) == Ticks(Ticks(s, a), b)
    decreases a
  {
    if a > 0 {
      TicksAdd(TickState(s), a - 1, b, n - 1);
    }
  }

  /** While paused, frames change nothing but the frame counter. */
  lemma PausedTicks(s: SessionState, n: nat)
    requires WellFormed(s) && s.pause
    ensures Ticks(s, n) == s.(cycles := s.cycles + n)
  {
    QuietTicks(s, n);
  }

  /** While running, the frames up to and including the first one on the beat
      advance the world once. */
  lemma {:induction false} UpToFirstBeat(s: SessionState, j: nat)
    requires WellFormed(s) && !s.pause && OnBeat(s.cycles, j, s.stepSpeed)
    requires forall i :: 0 <= i < j ==> s.pause || !OnBeat(s.cycles, i, s.stepSpeed)
    ensures Ticks(s, j + 1) == s.(grid := Step(s.grid), step := s.step + 1, cycles := s.cycles + j + 1)
  {
    QuietTicks(s, j);
    var s1 := Ticks(s, j);
    assert Advances(s1);
    TicksAdd(s, j, 1, j + 1);
  }

  /** While running, any stepSpeed consecutive frames advance the world by
      exactly one generation, wherever the frame counter starts. */
  lemma {:induction false} OneGenerationPerInterval(s: SessionState)
    requires WellFormed(s) && !s.pause
    ensures Ticks(s, s.stepSpeed) ==
      s.(grid := Step(s.grid), step := s.step + 1, cycles := s.cycles + s.stepSpeed)
  {
    var k, c := s.stepSpeed, s.cycles;
    var j := OneBeatInWindow(c, k);
    var s2 := Ticks(s, j + 1);
    var rest := k - (j + 1);
    assert s2 == s.(grid := Step(s.grid), step := s.step + 1, cycles := c + j + 1) by {
      UpToFirstBeat(s, j);
    }
    assert Ticks(s2, rest) == s2.(cycles := c + k) by {
      NoBeatAfter(c, k, j, s2.cycles);
      QuietTicks(s2, rest);
    }
    TicksAdd(s, j + 1, rest, k);
  }

  /** After the one beat in a window of k frame counters, the rest of the
      window has none. */
  lemma {:induction false} NoBeatAfter(c: nat, k: nat, j: nat, d: nat)
    requires k >= 1 && j < k && d == c + j + 1
    requires forall i :: 0 <= i < k && i != j ==> !OnBeat(c, i, k)
    ensures forall i :: 0 <= i < k - j - 1 ==> !OnBeat(d, i, k)
  {
    forall i | 0 <= i < k - j - 1 ensures !OnBeat(d, i, k) {
      assert !OnBeat(c, j + 1 + i, k);
    }
  }

  // ------------------------------------------------------------ the session

  class Session {
    const world: array2<bool>
    var pause: bool
    var stepSpeed: nat
    var step: nat
    var cycles: nat

    ghost predicate Valid()
      reads this
    {
      IsWorld(world) && stepSpeed >= 1
    }

    /** The session's variables as a value. */
    ghost function State(): SessionState
      reads this, world
      requires IsWorld(world)
    {
      SessionState(Snapshot(world), pause, stepSpeed, step, cycles)
    }

    /** All cells dead, running, step speed 3, both counters at 0. */
    constructor ()
      ensures Valid() && fresh(world) && State() == Initial()
    {
      world := new bool[N, N]((_, _) => false);
      pause := false;
      stepSpeed := DefaultStepSpeed;
      step := 0;
      cycles := 0;
      new;
      GridsEqual(Snapshot(world), Dead());
    }

    /** A release of a mouse button at pixel (px, py): the left button sets
        the cell under it alive, the right button dead, others do nothing. */
    method Click(button: MouseButton, px: int, py: int)
      requires Valid() && (Edits(button) ==> InWindow(px, py))
      modifies world
      ensures Valid() && State() == Apply(old(State()), MouseButtonUp(button, px, py))
    {
      ghost var g := Snapshot(world);
      if button == Left {
        var col := px / (CellSize as int);
        var row := py / (CellSize as int);
        world[row, col] := true;
        GridsEqual(Snapshot(world), SetCell(g, col, row, true));
      } else if button == Right {
        var col := px / (CellSize as int);
        var row := py / (CellSize as int);
        world[row, col] := false;
        GridsEqual(Snapshot(world), SetCell(g, col, row, false));
      }
    }

    /** Key S: one generation and one more on the generation counter, paused or not. */
    method StepOnce()
      requires Valid()
      modifies this, world
      ensures Valid() && State() == Apply(old(State()), KeyUp(S))
    {
      NextState(world);
      step := step + 1;
    }

    /** Key Space. */
    method TogglePause()
      requires Valid()
      modifies this
      ensures Valid() && State() == Apply(old(State()), KeyUp(Space))
    {
      pause := !pause;
    }

    /** Key Up: one more frame per generation. */
    method IncrementStepSpeed()
      requires Valid()
      modifies this
      ensures Valid() && State() == Apply(old(State()), KeyUp(Up))
    {
      stepSpeed := stepSpeed + 1;
    }

    /** Key Down: one frame fewer per generation, but never fewer than 1. */
    method DecrementStepSpeed()
      requires Valid()
      modifies this
      ensures Valid() && State() == Apply(old(State()), KeyUp(Down))
    {
      if stepSpeed != 1 {
        stepSpeed := stepSpeed - 1;
      }
    }

    /** Key R: the world is cleared in place and every variable goes back to
        its initial value. */
    method Reset()
      requires Valid()
      modifies this, world
      ensures Valid() && State() == Apply(old(State()), KeyUp(R))
      ensures State() == Initial()
    {
      forall r, c | 0 <= r < N && 0 <= c < N {
        world[r, c] := false;
      }
      cycles := 0;
      stepSpeed := DefaultStepSpeed;
      pause := false;
      step := 0;
      GridsEqual(Snapshot(world), Dead());
    }

    /** One event from the frame's queue; the result says whether it was Quit. */
    method HandleEvent(e: Event) returns (quit: bool)
      requires Valid() && Admissible(e)
      modifies this, world
      ensures Valid() && quit == e.Quit? && State() == Apply(old(State()), e)
    {
      quit := false;
      match e
      case Quit =>
        quit := true;
      case MouseButtonUp(button, px, py) =>
        Click(button, px, py);
      case KeyUp(key) =>
        match key {
          case S => StepOnce();
          case Space => TogglePause();
          case Up => IncrementStepSpeed();
          case Down => DecrementStepSpeed();
          case R => Reset();
          case OtherKey =>
        }
      case OtherEvent =>
    }

    /** The end of every frame: advance when not paused and the frame counter
        is a multiple of the step speed, then count the frame. */
    method Tick()
      requires Valid()
      modifies this, world
      ensures Valid() && State() == TickState(old(State()))
    {
      if !pause && cycles % stepSpeed == 0 {
        NextState(world);
        step := step + 1;
      }
      cycles := cycles + 1;
    }

    /** One pass of the main loop: handle the frame's events in order,
        stopping at a Quit, then tick. */
    method RunFrame(events: seq<Event>) returns (quit: bool)
      requires Valid() && forall e <- events :: Admissible(e)
      modifies this, world
      ensures Valid() && (State(), quit) == Frame(old(State()), events)
    {
      ghost var s0 := State();
      var i := 0;
      while i < |events|
        invariant 0 <= i <= |events| && Valid()
        invariant RunEvents(s0, events[..i]) == (State(), false)
      {
        ghost var before := State();
        quit := HandleEvent(events[i]);
        if quit {
          RunEventsSplit(s0, events, i);
          assert events[i..][0] == events[i];
          return;
        }
        assert events[..i + 1][..i] == events[..i];
        assert events[..i + 1][i..] == [events[i]];
        RunEventsSplit(s0, events[..i + 1], i);
        i := i + 1;
      }
      assert events[..i] == events;
      Tick();
      quit := false;
    }

    /** The main loop over a run of frames, ending at the first Quit. */
    method Run(frames: seq<seq<Event>>) returns (quit: bool)
      requires Valid() && forall es <- frames, e <- es :: Admissible(e)
      modifies this, world
      ensures Valid() && (State(), quit) == RunFrames(old(State()), frames)
    {
      ghost var s0 := State();
      quit := false;
      var i := 0;
      while i < |frames|
        invariant 0 <= i <= |frames| && Valid()
        invariant RunFrames(s0, frames[..i]) == (State(), false)
      {
        assert frames[..i + 1][..i] == frames[..i];
        quit := RunFrame(frames[i]);
        if quit {
          assert RunFrames(s0, frames[..i + 1]) == (State(), true);
          RunFramesStop(s0, frames, i + 1);
          return;
        }
        i := i + 1;
      }
      assert frames[..i] == frames;
    }
  }

  /** A run of n frames without events is n ticks: the main loop never stops
      on its own. */
  lemma {:induction false} EmptyFramesAreTicks(s: SessionState, n: nat)
    requires WellFormed(s)
    ensures RunFrames(s, seq(n, _ => [])) == (Ticks(s, n), false)
    decreases n
  {
    if n > 0 {
      var frames: seq<seq<Event>> := seq(n, _ => []);
      assert frames[..n - 1] == seq(n - 1, _ => []);
      EmptyFramesAreTicks(s, n - 1);
      TicksAdd(s, n - 1, 1, n);
    }
  }

  /** Once the main loop has stopped, later frames change nothing. */
  lemma {:induction false} RunFramesStop(s: SessionState, frames: seq<seq<Event>>, i: nat)
    requires WellFormed(s) && forall es <- frames, e <- es :: Admissible(e)
    requires i <= |frames| && RunFrames(s, frames[..i]).1
    ensures RunFrames(s, frames) == RunFrames(s, frames[..i])
    decreases |frames| - i
  {
    if i < |frames| {
      assert frames[..i + 1][..i] == frames[..i];
      RunFramesStop(s, frames, i + 1);
    } else {
      assert frames[..i] == frames;
    }
  }
}
