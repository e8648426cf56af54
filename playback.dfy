/**
 The playback controller: three flags driven by pointer events, and a loop step that
 advances the grid, rewinds it from the undo history, or leaves it alone.
 */
module Playback {
  import opened Life
  import opened History

  /** Maximum length of the undo history. */
  const HistoryLimit: nat := 100

  /** Which control button, if any, lies under the pointer. The four buttons sit side by
      side without overlapping, so a position is over at most one of them. */
  datatype Hit = OnPlayPause | OnPrevious | OnNext | OnRefresh | OffButtons

  datatype Event =
    | MouseMotion
    | MouseButtonDown(button: int, hit: Hit)
    | MouseButtonUp(button: int)
    | Quit
    | OtherEvent

  /** A press of the primary button over `target`. */
  predicate Clicked(e: Event, target: Hit) {
    e.MouseButtonDown? && e.button == 1 && e.hit == target
  }

  /** A release of the primary button, wherever the pointer is. */
  predicate Released(e: Event) {
    e.MouseButtonUp? && e.button == 1
  }

  datatype Flags = Flags(runGame: bool, nextState: bool, previousState: bool)

  /** The branch of the event dispatch an event takes. */
  datatype Branch =
    | Skip | NextPress | NextRelease | Reseed | PlayPause | PreviousPress | PreviousRelease | Exit | Unmatched

  /** The first branch, in the order the dispatch tests them, whose condition holds.
      Because the tests are ordered, a release counts as the end of a rewind only when
      no single step is held. */
  function Classify(e: Event, f: Flags): (r: Branch)
    ensures r == Skip <==> e.MouseMotion?
    ensures r == NextPress <==> Clicked(e, OnNext)
    ensures r == NextRelease <==> f.nextState && Released(e)
    ensures r == Reseed <==> Clicked(e, OnRefresh)
    ensures r == PlayPause <==> Clicked(e, OnPlayPause)
    ensures r == PreviousPress <==> Clicked(e, OnPrevious)
    ensures r == PreviousRelease <==> !f.nextState && f.previousState && Released(e)
    ensures r == Exit <==> e.Quit?
  {
    if e.MouseMotion? then Skip
    else if Clicked(e, OnNext) then NextPress
    else if f.nextState && Released(e) then NextRelease
    else if Clicked(e, OnRefresh) then Reseed
    else if Clicked(e, OnPlayPause) then PlayPause
    else if Clicked(e, OnPrevious) then PreviousPress
    else if f.previousState && Released(e) then PreviousRelease
    else if e.Quit? then Exit
    else Unmatched
  }

  /** The abstract state of a session. */
  datatype View = View(matrix: Grid, history: seq<Grid>, flags: Flags)

  /** The matrix and every history entry have shape `(col, row)` and hold only 0 and 1,
      and the history is within its maximum length. */
  predicate WellFormed(v: View, col: nat, row: nat) {
    IsGrid(v.matrix, col, row) &&
    |v.history| <= HistoryLimit &&
    forall i :: 0 <= i < |v.history| ==> IsGrid(v.history[i], col, row)
  }

  /** The effect of one event; `seed` is the grid a refresh installs. No event touches
      the history, and only a refresh replaces the grid. */
  function OnEvent(v: View, e: Event, seed: Grid): (r: View)
    ensures r.history == v.history
    ensures r.matrix == if Clicked(e, OnRefresh) then seed else v.matrix
  {
    match Classify(e, v.flags)
    case NextPress => v.(flags := v.flags.(runGame := true, nextState := true))
    case NextRelease => v.(flags := v.flags.(runGame := false, nextState := false))
    case Reseed => v.(matrix := seed, flags := v.flags.(runGame := false))
    case PlayPause => v.(flags := v.flags.(runGame := !v.flags.runGame))
    case PreviousPress => v.(flags := v.flags.(runGame := false, previousState := true))
    case PreviousRelease => v.(flags := v.flags.(previousState := false))
    case _ => v
  }

  /** The loop step after a batch of events. */
  function OnTick(v: View, col: nat, row: nat): (r: View)
    requires WellFormed(v, col, row)
    ensures WellFormed(r, col, row)
  {
    if v.flags.runGame then
      AppendBounded(v.history, v.matrix, HistoryLimit);
      v.(history := LastN(v.history + [v.matrix], HistoryLimit), matrix := Step(v.matrix, col, row))
    else if v.flags.previousState && v.history != [] then
      v.(matrix := Newest(v.history), history := WithoutNewest(v.history))
    else
      v
  }

  /** Seeds that a refresh may install. */
  predicate SeedsFit(seeds: seq<Grid>, col: nat, row: nat) {
    forall i :: 0 <= i < |seeds| ==> IsGrid(seeds[i], col, row)
  }

  /** A batch of events handled in order, `seeds[i]` standing for the grid a refresh at
      `events[i]` would install; the Boolean says whether a quit ended the batch early. */
  function OnBatch(v: View, events: seq<Event>, seeds: seq<Grid>, col: nat, row: nat): (r: (View, bool))
    requires WellFormed(v, col, row) && |seeds| == |events| && SeedsFit(seeds, col, row)
    ensures WellFormed(r.0, col, row)
    decreases |events|
  {
    if events == [] then (v, false)
    else if Classify(events[0], v.flags) == Exit then (v, true)
    else OnBatch(OnEvent(v, events[0], seeds[0]), events[1..], seeds[1..], col, row)
  }

  /** A game session: the grid, its undo history and the three playback flags. */
  class Session {
    const col: nat
    const row: nat
    var matrix: Grid
    const matrixHistory: BoundedDeque<Grid>
    var runGame: bool
    var previousState: bool
    var nextState: bool

    ghost function State(): View
      reads this, matrixHistory
    {
      View(matrix, matrixHistory.items, Flags(runGame, nextState, previousState))
    }

    ghost predicate Valid()
      reads this, matrixHistory
    {
      matrixHistory.maxlen == HistoryLimit && WellFormed(State(), col, row)
    }

    /** A paused session on the grid `seed` with an empty history. */
    constructor (col: nat, row: nat, seed: Grid)
      requires IsGrid(seed, col, row)
      ensures Valid() && fresh(matrixHistory)
      ensures this.col == col && this.row == row
      ensures State() == View(seed, [], Flags(false, false, false))
    {
      this.col := col;
      this.row := row;
      matrix := seed;
      matrixHistory := new BoundedDeque(HistoryLimit);
      runGame := false;
      previousState := false;
      nextState := false;
    }

    /** Handles one event; `seed` is the grid a refresh installs. Reports whether the
        event asks the program to quit. */
    method HandleEvent(event: Event, seed: Grid) returns (quit: bool)
      requires Valid() && IsGrid(seed, col, row)
      modifies this
      ensures Valid()
      ensures State() == OnEvent(old(State()), event, seed)
      ensures quit <==> Classify(event, old(State()).flags) == Exit
    {
      quit := false;
      if event.MouseMotion? {
      } else if Clicked(event, OnNext) {
        runGame := true;
        nextState := true;
      } else if nextState && event.MouseButtonUp? && event.button == 1 {
        runGame := false;
        nextState := false;
      } else if Clicked(event, OnRefresh) {
        matrix := seed;
        runGame := false;
      } else if Clicked(event, OnPlayPause) {
        runGame := !runGame;
      } else if Clicked(event, OnPrevious) {
        runGame := false;
        previousState := true;
      } else if previousState && event.MouseButtonUp? && event.button == 1 {
        previousState := false;
      } else if event.Quit? {
        quit := true;
      }
    }

    /** The step after the events: advance while running, else rewind one entry while
        the previous button is held and the history is not empty. */
    method Tick()
      requires Valid()
      modifies this, matrixHistory
      ensures Valid()
      ensures State() == OnTick(old(State()), col, row)
    {
      if runGame {
        matrixHistory.Append(matrix);
        matrix := NextGeneration(col, matrix, row);
      } else if previousState && matrixHistory.items != [] {
        matrix := matrixHistory.Pop();
      }
    }

    /** One pass of the main loop: the pending events in order, then the step, unless
        an event asked to quit. */
    method Iterate(events: seq<Event>, seeds: seq<Grid>) returns (quit: bool)
      requires Valid() && |seeds| == |events| && SeedsFit(seeds, col, row)
      modifies this, matrixHistory
      ensures Valid()
      ensures quit == OnBatch(old(State()), events, seeds, col, row).1
      ensures State() ==
        var w := OnBatch(old(State()), events, seeds, col, row).0;
        if quit then w else OnTick(w, col, row)
    {
      var i := 0;
      while i < |events|
        invariant 0 <= i <= |events| && Valid()
        invariant OnBatch(old(State()), events, seeds, col, row) == OnBatch(State(), events[i..], seeds[i..], col, row)
      {
        quit := HandleEvent(events[i], seeds[i]);
        if quit {
          return;
        }
        i := i + 1;
      }
      quit := false;
      Tick();
    }
  }

  // ---------------------------------------------------------------------------
  // Properties of the event dispatch
  // ---------------------------------------------------------------------------

  /** Pointer motion changes nothing, even while a button is held. */
  lemma MotionChangesNothing(v: View, seed: Grid)
    ensures OnEvent(v, MouseMotion, seed) == v
  {
  }

  /** Events with no branch of their own, and presses or releases of other buttons,
      change nothing. */
  lemma OtherEventsChangeNothing(v: View, e: Event, seed: Grid)
    requires e.OtherEvent? || e.Quit? || (e.MouseButtonDown? && (e.button != 1 || e.hit == OffButtons)) ||
      (e.MouseButtonUp? && (e.button != 1 || (!v.flags.nextState && !v.flags.previousState)))
    ensures OnEvent(v, e, seed) == v
  {
  }

  /** Play/pause toggles running and touches nothing else. */
  lemma PlayPauseToggles(v: View, seed: Grid)
    ensures OnEvent(v, MouseButtonDown(1, OnPlayPause), seed) ==
      v.(flags := v.flags.(runGame := !v.flags.runGame))
  {
  }

  /** Pressing next starts a held single step: both flags set. */
  lemma NextPressSetsFlags(v: View, seed: Grid)
    ensures OnEvent(v, MouseButtonDown(1, OnNext), seed) ==
      v.(flags := Flags(true, true, v.flags.previousState))
  {
  }

  /** A release while stepping clears both stepping flags and, being the first match,
      leaves a held rewind flag alone. */
  lemma ReleaseEndsStep(v: View, seed: Grid)
    requires v.flags.nextState
    ensures OnEvent(v, MouseButtonUp(1), seed) ==
      v.(flags := Flags(false, false, v.flags.previousState))
  {
  }

  /** Refresh installs the new grid and pauses; the history and the other flags stay. */
  lemma RefreshReseeds(v: View, seed: Grid)
    ensures OnEvent(v, MouseButtonDown(1, OnRefresh), seed) ==
      View(seed, v.history, v.flags.(runGame := false))
  {
  }

  /** Pressing previous pauses and starts a held rewind. */
  lemma PreviousPressSetsFlags(v: View, seed: Grid)
    ensures OnEvent(v, MouseButtonDown(1, OnPrevious), seed) ==
      v.(flags := Flags(false, v.flags.nextState, true))
  {
  }

  /** A release while rewinding (and not stepping) ends the rewind only. */
  lemma ReleaseEndsRewind(v: View, seed: Grid)
    requires !v.flags.nextState && v.flags.previousState
    ensures OnEvent(v, MouseButtonUp(1), seed) == v.(flags := v.flags.(previousState := false))
  {
  }

  /** An event keeps the session well formed when the grid a refresh installs is. */
  lemma EventKeepsWellFormed(v: View, e: Event, seed: Grid, col: nat, row: nat)
    requires WellFormed(v, col, row) && IsGrid(seed, col, row)
    ensures WellFormed(OnEvent(v, e, seed), col, row)
  {
  }

  // ---------------------------------------------------------------------------
  // Properties of the loop step
  // ---------------------------------------------------------------------------

  /** While running, the step records the current grid as the newest history entry and
      installs its next generation; this takes precedence over rewinding. */
  lemma RunningAdvances(v: View, col: nat, row: nat)
    requires WellFormed(v, col, row) && v.flags.runGame
    ensures OnTick(v, col, row).matrix == Step(v.matrix, col, row)
    ensures OnTick(v, col, row).history == LastN(v.history + [v.matrix], HistoryLimit)
    ensures OnTick(v, col, row).history != [] && Newest(OnTick(v, col, row).history) == v.matrix
  {
  }

  /** Paused with the previous button held, the step pops the newest entry into the
      matrix; with an empty history, or with no button held, nothing changes. */
  lemma PausedRewindsOrWaits(v: View, col: nat, row: nat)
    requires WellFormed(v, col, row) && !v.flags.runGame
    ensures v.flags.previousState && v.history != [] ==>
      OnTick(v, col, row) == v.(matrix := Newest(v.history), history := WithoutNewest(v.history))
    ensures !v.flags.previousState || v.history == [] ==> OnTick(v, col, row) == v
  {
  }

  /** A rewind right after an advance restores the grid from before the advance, and the
      history loses only what the bound evicted. */
  lemma RewindUndoesAdvance(v: View, col: nat, row: nat, seed: Grid)
    requires WellFormed(v, col, row) && v.flags.runGame
    ensures
      var advanced := OnTick(v, col, row);
      var pressed := OnEvent(advanced, MouseButtonDown(1, OnPrevious), seed);
      var rewound := OnTick(pressed, col, row);
      rewound.matrix == v.matrix && rewound.history == LastN(v.history, HistoryLimit - 1)
  {
  }

  /** Rewinding from a history below its bound restores the history exactly. */
  lemma RewindRestoresShortHistory(v: View, col: nat, row: nat, seed: Grid)
    requires WellFormed(v, col, row) && v.flags.runGame && |v.history| < HistoryLimit
    ensures
      var advanced := OnTick(v, col, row);
      var rewound := OnTick(OnEvent(advanced, MouseButtonDown(1, OnPrevious), seed), col, row);
      rewound.matrix == v.matrix && rewound.history == v.history
  {
  }

  /** Clicking next on a paused session, with the release arriving in the loop pass after
      the press, advances exactly one generation: the press makes one pass advance, and
      the release stops the next pass from advancing. */
  lemma NextClickAdvancesOnce(v: View, col: nat, row: nat, seed: Grid)
    requires WellFormed(v, col, row) && v.flags == Flags(false, false, false) && IsGrid(seed, col, row)
    ensures
      var pressed := OnBatch(v, [MouseButtonDown(1, OnNext)], [seed], col, row);
      !pressed.1 &&
      var first := OnTick(pressed.0, col, row);
      var released := OnBatch(first, [MouseButtonUp(1)], [seed], col, row);
      !released.1 &&
      var second := OnTick(released.0, col, row);
      second.matrix == Step(v.matrix, col, row) && second.flags == v.flags &&
      second.history == LastN(v.history + [v.matrix], HistoryLimit)
  {
  }

  /** A press and release of next within one batch of events advance nothing: the
      release clears both flags before the step runs. */
  lemma SameBatchClickAdvancesNothing(v: View, col: nat, row: nat, seed: Grid)
    requires WellFormed(v, col, row) && v.flags == Flags(false, false, false) && IsGrid(seed, col, row)
    ensures
      var batch := OnBatch(v, [MouseButtonDown(1, OnNext), MouseButtonUp(1)], [seed, seed], col, row);
      !batch.1 && OnTick(batch.0, col, row) == v
  {
  }
}
