/**
 * The keyboard controls and the frame loop of `GameOfLife`: `handle_events`
 * and one iteration of `run` at a time. Events arrive as a list per frame;
 * each `'r'` press is paired with the grid `random.randint` would produce.
 */
module Controls {
  import opened Grid
  import opened Life

  /** What the event queue can deliver. */
  datatype Event =
    | KeyDown(unicode: string)  // a key press, with the text it types
    | Quit                      // the window was closed
    | Other                     // any other event, which the game ignores

  /** After a batch of events: the process went on, or `sys.exit()` ended it. */
  datatype Flow = Continue(state: State) | Exit

  /** After one iteration of the loop in `run`. */
  datatype Tick = Returned(state: State) | Exited | Ticked(state: State)

  /** After a bounded run: returned, exited, or still looping when the frames ran out. */
  datatype RunResult = RunReturned(state: State) | RunExited | Pending(state: State)

  /** `rands[i]` is a possible random buffer for every `'r'` press `events[i]`. */
  predicate RandomsFor(events: seq<Event>, rands: seq<Grid>, rows: int, cols: int) {
    |rands| == |events| &&
    forall i :: 0 <= i < |events| && events[i] == KeyDown("r") ==> RandomFill(rands[i], rows, cols)
  }

  /** `RandomsFor` for each frame of a run. */
  predicate RandomsForFrames(frames: seq<seq<Event>>, rands: seq<seq<Grid>>, rows: int, cols: int) {
    |rands| == |frames| &&
    forall i :: 0 <= i < |frames| ==> RandomsFor(frames[i], rands[i], rows, cols)
  }

  /** How many times `key` is pressed in `events`. */
  function Presses(events: seq<Event>, key: string): (n: nat)
    ensures n == 0 <==> KeyDown(key) !in events
    ensures n <= |events|
  {
    if |events| == 0 then 0
    else (if events[0] == KeyDown(key) then 1 else 0) + Presses(events[1..], key)
  }

  /** The position of the last press of `key` in `events`, or -1 if there is none. */
  function LastPress(events: seq<Event>, key: string): (i: int)
    ensures i == -1 <==> KeyDown(key) !in events
    ensures i != -1 ==> 0 <= i < |events| && events[i] == KeyDown(key)
    ensures i != -1 ==> forall j :: i < j < |events| ==> events[j] != KeyDown(key)
  {
    if |events| == 0 then -1
    else
      var j := LastPress(events[1..], key);
      if j != -1 then j + 1
      else if events[0] == KeyDown(key) then 0
      else -1
  }

  /** The random buffers paired with all but the first event. */
  lemma RandomsForTail(events: seq<Event>, rands: seq<Grid>, rows: int, cols: int)
    requires |events| > 0 && RandomsFor(events, rands, rows, cols)
    ensures RandomsFor(events[1..], rands[1..], rows, cols)
  {
  }

  /** The random buffers paired with all but the first frame. */
  lemma RandomsForFramesTail(frames: seq<seq<Event>>, rands: seq<seq<Grid>>, rows: int, cols: int)
    requires |frames| > 0 && RandomsForFrames(frames, rands, rows, cols)
    ensures RandomsForFrames(frames[1..], rands[1..], rows, cols)
  {
  }

  /**
   * The key branches of `handle_events`: `'s'` toggles the pause, `'r'`
   * makes buffer 0 active, fills it at random and clears buffer 1, `'q'`
   * ends the game; any other key changes nothing.
   */
  function HandleKey(s: State, key: string, rand: Grid): (t: State)
    requires WellFormed(s)
    requires key == "r" ==> RandomFill(rand, s.numRows, s.numCols)
    ensures WellFormed(t) && t.numRows == s.numRows && t.numCols == s.numCols
    ensures Valid(s) ==> Valid(t)
    ensures key == "s" ==> t == s.(paused := !s.paused)
    ensures key == "q" ==> t == s.(gameOver := true)
    ensures key == "r" ==> t.active == 0 && t.grids[0] == rand && Filled(t.grids[1], 0) && Valid(t)
    ensures key == "r" ==> t.paused == s.paused && t.gameOver == s.gameOver
    ensures key != "s" && key != "r" && key != "q" ==> t == s
  {
    if key == "s" then
      s.(paused := !s.paused)
    else if key == "r" then
      var s1 := s.(active := 0);
      var s2 := SetGrid(s1, None, s1.active, rand);
      SetGrid(s2, Some(0), Inactive(s2.active), [])
    else if key == "q" then
      s.(gameOver := true)
    else
      s
  }

  /** Pressing `'s'` twice leaves the state as it was. */
  lemma PauseToggleTwice(s: State, rand: Grid)
    requires WellFormed(s)
    ensures HandleKey(HandleKey(s, "s", rand), "s", rand) == s
  {
  }

  /**
   * One pass of the loop in `handle_events()`: a key press goes to
   * `HandleKey`, a `Quit` exits the process, any other event is ignored.
   */
  function HandleEvent(s: State, e: Event, rand: Grid): (f: Flow)
    requires WellFormed(s)
    requires e == KeyDown("r") ==> RandomFill(rand, s.numRows, s.numCols)
    ensures f.Exit? <==> e == Quit
    ensures f.Continue? ==> WellFormed(f.state) && f.state.numRows == s.numRows && f.state.numCols == s.numCols
    ensures f.Continue? && Valid(s) ==> Valid(f.state)
    ensures f.Continue? ==> f.state.paused == (s.paused != (e == KeyDown("s")))
    ensures f.Continue? ==> (f.state.gameOver <==> s.gameOver || e == KeyDown("q"))
    ensures f.Continue? && e != KeyDown("r") ==> f.state.grids == s.grids && f.state.active == s.active
    ensures e == KeyDown("r") ==>
      f.Continue? && f.state.active == 0 && f.state.grids[0] == rand && Filled(f.state.grids[1], 0)
  {
    match e
    case Quit => Exit
    case Other => Continue(s)
    case KeyDown(key) => Continue(HandleKey(s, key, rand))
  }

  /**
   * `handle_events()` over one batch of events, in order. A `Quit` exits the
   * process on the spot; otherwise the pause ends up toggled once per `'s'`,
   * the buffers hold the board of the last `'r'`, and the game is over once a
   * `'q'` arrives.
   */
  function HandleEvents(s: State, events: seq<Event>, rands: seq<Grid>): (f: Flow)
    requires WellFormed(s)
    requires RandomsFor(events, rands, s.numRows, s.numCols)
    ensures f.Exit? <==> Quit in events
    ensures f.Continue? ==> WellFormed(f.state) && f.state.numRows == s.numRows && f.state.numCols == s.numCols
    ensures f.Continue? && Valid(s) ==> Valid(f.state)
    ensures f.Continue? && KeyDown("r") !in events ==> f.state.grids == s.grids && f.state.active == s.active
    ensures f.Continue? && KeyDown("s") !in events ==> f.state.paused == s.paused
    ensures f.Continue? ==> (f.state.gameOver <==> s.gameOver || KeyDown("q") in events)
    decreases |events|
  {
    if |events| == 0 then
      Continue(s)
    else
      RandomsForTail(events, rands, s.numRows, s.numCols);
      var e, rest := events[0], events[1..];
      assert events == [e] + rest;
      assert Quit in events <==> e == Quit || Quit in rest;
      assert KeyDown("q") in events <==> e == KeyDown("q") || KeyDown("q") in rest;
      assert KeyDown("r") in events <==> e == KeyDown("r") || KeyDown("r") in rest;
      match HandleEvent(s, e, rands[0])
      case Exit => Exit
      case Continue(t) => HandleEvents(t, rest, rands[1..])
  }

  /** After a batch without `Quit`, the pause has been toggled once per `'s'`. */
  lemma {:induction false} PauseFollowsPresses(s: State, events: seq<Event>, rands: seq<Grid>)
    requires WellFormed(s)
    requires RandomsFor(events, rands, s.numRows, s.numCols)
    ensures HandleEvents(s, events, rands).Continue? ==>
      HandleEvents(s, events, rands).state.paused == (s.paused != (Presses(events, "s") % 2 == 1))
    decreases |events|
  {
    if |events| > 0 && events[0] != Quit {
      RandomsForTail(events, rands, s.numRows, s.numCols);
      var e, rest := events[0], events[1..];
      var t := HandleEvent(s, e, rands[0]).state;
      assert HandleEvents(s, events, rands) == HandleEvents(t, rest, rands[1..]);
      PauseFollowsPresses(t, rest, rands[1..]);
      var n, m := Presses(events, "s"), Presses(rest, "s");
      if e == KeyDown("s") {
        assert n == m + 1;
        assert (n % 2 == 1) == (m % 2 != 1);
      } else {
        assert n == m;
      }
    }
  }

  /**
   * After a batch without `Quit` that holds an `'r'`, buffer 0 is active and
   * holds the board of the last `'r'`, and buffer 1 is cleared.
   */
  lemma {:induction false} LastReseedWins(s: State, events: seq<Event>, rands: seq<Grid>)
    requires WellFormed(s)
    requires RandomsFor(events, rands, s.numRows, s.numCols)
    ensures HandleEvents(s, events, rands).Continue? && KeyDown("r") in events ==>
      var t := HandleEvents(s, events, rands).state;
      t.active == 0 && t.grids[0] == rands[LastPress(events, "r")] && Filled(t.grids[1], 0)
    decreases |events|
  {
    if |events| > 0 && events[0] != Quit {
      RandomsForTail(events, rands, s.numRows, s.numCols);
      var e, rest := events[0], events[1..];
      var t := HandleEvent(s, e, rands[0]).state;
      assert HandleEvents(s, events, rands) == HandleEvents(t, rest, rands[1..]);
      LastReseedWins(t, rest, rands[1..]);
      var j := LastPress(rest, "r");
      if j != -1 {
        assert LastPress(events, "r") == j + 1 && rands[j + 1] == rands[1..][j];
      } else if e == KeyDown("r") {
        assert LastPress(events, "r") == 0;
      } else {
        assert events == [e] + rest;
      }
    }
  }

  /**
   * One iteration of the loop in `run`: return if the game is over, else
   * handle the frame's events, then step the generation unless paused.
   */
  function RunTick(s: State, events: seq<Event>, rands: seq<Grid>): (k: Tick)
    requires WellFormed(s)
    requires RandomsFor(events, rands, s.numRows, s.numCols)
    ensures s.gameOver ==> k == Returned(s)
    ensures !s.gameOver ==> (k.Exited? <==> Quit in events)
    ensures k.Ticked? ==> WellFormed(k.state) && k.state.numRows == s.numRows && k.state.numCols == s.numCols
    ensures k.Ticked? && Valid(s) ==> Valid(k.state)
    ensures k.Ticked? ==> (k.state.gameOver <==> KeyDown("q") in events)
    ensures !s.gameOver ==> (k.Ticked? <==> Quit !in events)
    ensures k.Ticked? && k.state.paused ==> HandleEvents(s, events, rands) == Continue(k.state)
    ensures k.Ticked? && !k.state.paused ==> k.state == Step(HandleEvents(s, events, rands).state)
    ensures !s.gameOver && Quit !in events && KeyDown("s") !in events && KeyDown("r") !in events ==>
      var h := s.(gameOver := KeyDown("q") in events);
      k == Ticked(if s.paused then h else Step(h))
    ensures !s.gameOver && s.paused && events == [] ==> k == Ticked(s)
    ensures !s.gameOver && !s.paused && events == [] ==> k == Ticked(Step(s))
  {
    if s.gameOver then
      Returned(s)
    else
      match HandleEvents(s, events, rands)
      case Exit => Exited
      case Continue(t) =>
        if !t.paused then Ticked(Step(t)) else Ticked(t)
  }

  /**
   * A running game that sees `'q'` still steps once in that iteration, and
   * the next iteration returns without stepping whatever events arrive.
   */
  lemma QuitStepsOnceThenReturns(s: State, events: seq<Event>, rands: seq<Grid>)
    requires WellFormed(s) && !s.gameOver && !s.paused
    requires RandomsFor(events, rands, s.numRows, s.numCols)
    ensures RunTick(s, [KeyDown("q")], [[]]) == Ticked(Step(s.(gameOver := true)))
    ensures RunTick(Step(s.(gameOver := true)), events, rands) == Returned(Step(s.(gameOver := true)))
  {
  }

  /**
   * `run()` over a finite sequence of frames: iterations continue until the
   * game is over (return), a `Quit` arrives (exit), or the frames run out.
   */
  function Run(s: State, frames: seq<seq<Event>>, rands: seq<seq<Grid>>): (res: RunResult)
    requires WellFormed(s)
    requires RandomsForFrames(frames, rands, s.numRows, s.numCols)
    ensures res.RunReturned? ==> res.state.gameOver && WellFormed(res.state)
    ensures res.Pending? ==> !res.state.gameOver && WellFormed(res.state)
    ensures res.RunReturned? && Valid(s) ==> Valid(res.state)
    ensures res.Pending? && Valid(s) ==> Valid(res.state)
    ensures res.RunExited? ==> exists i :: 0 <= i < |frames| && Quit in frames[i]
    ensures s.gameOver ==> res == RunReturned(s)
    decreases |frames|
  {
    if |frames| == 0 then
      if s.gameOver then RunReturned(s) else Pending(s)
    else
      match RunTick(s, frames[0], rands[0])
      case Returned(t) => RunReturned(t)
      case Exited => RunExited
      case Ticked(t) =>
        RandomsForFramesTail(frames, rands, t.numRows, t.numCols);
        var res := Run(t, frames[1..], rands[1..]);
        assert res.RunExited? ==> exists i :: 0 <= i < |frames| && Quit in frames[i] by {
          if res.RunExited? {
            var j :| 0 <= j < |frames[1..]| && Quit in frames[1..][j];
            assert frames[j + 1] == frames[1..][j];
          }
        }
        res
  }

  /** While the game is paused and no events arrive, any number of frames leave the state untouched. */
  lemma {:induction false} PausedRunIsIdle(s: State, frames: seq<seq<Event>>, rands: seq<seq<Grid>>)
    requires WellFormed(s) && s.paused
    requires RandomsForFrames(frames, rands, s.numRows, s.numCols)
    requires forall i :: 0 <= i < |frames| ==> frames[i] == []
    ensures Run(s, frames, rands) == if s.gameOver then RunReturned(s) else Pending(s)
    decreases |frames|
  {
    if |frames| > 0 && !s.gameOver {
      assert rands[0] == [];
      RandomsForFramesTail(frames, rands, s.numRows, s.numCols);
      PausedRunIsIdle(s, frames[1..], rands[1..]);
    }
  }

  /** A run whose first frame is event-less continues from one step further on. */
  lemma IdleFrameSteps(s: State, frames: seq<seq<Event>>, rands: seq<seq<Grid>>)
    requires WellFormed(s) && !s.paused && !s.gameOver
    requires RandomsForFrames(frames, rands, s.numRows, s.numCols)
    requires |frames| > 0 && frames[0] == []
    ensures RandomsForFrames(frames[1..], rands[1..], s.numRows, s.numCols)
    ensures Run(s, frames, rands) == Run(Step(s), frames[1..], rands[1..])
  {
    assert rands[0] == [];
    assert RunTick(s, frames[0], rands[0]) == Ticked(Step(s));
    RandomsForFramesTail(frames, rands, s.numRows, s.numCols);
  }

  /** While the game runs and no events arrive, each frame steps one generation. */
  lemma {:induction false} RunningRunSteps(s: State, frames: seq<seq<Event>>, rands: seq<seq<Grid>>)
    requires WellFormed(s) && !s.paused && !s.gameOver
    requires RandomsForFrames(frames, rands, s.numRows, s.numCols)
    requires forall i :: 0 <= i < |frames| ==> frames[i] == []
    ensures Run(s, frames, rands) == Pending(Steps(s, |frames|))
    decreases |frames|
  {
    if |frames| > 0 {
      var t := Step(s);
      IdleFrameSteps(s, frames, rands);
      assert Steps(s, |frames|) == Steps(t, |frames[1..]|);
      assert forall i :: 0 <= i < |frames[1..]| ==> frames[1..][i] == [] by {
        assert forall i :: 0 <= i < |frames[1..]| ==> frames[1..][i] == frames[i + 1];
      }
      RunningRunSteps(t, frames[1..], rands[1..]);
    }
  }
}
