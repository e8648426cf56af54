# Conway's Game of Life with playback controls: a verified model

`conway.py` draws a `col × row` Game of Life board with pygame. It also has four
buttons: play/pause, previous, next and refresh. Under the drawing code are three small
integer-only components, and this project models and proves each of them:

- **The generation step** (`life.dfy`, module `Life`). `next_generation` is a
  synchronous B3/S23 update. The grid is indexed `matrix[x][y]`, where `x` is the column.
  A cell's neighbour count is the sum of the 3×3 slice around it, clamped at every edge
  so it never wraps, minus the cell itself. The result is written into a fresh board
  that starts at zero. The model keeps that shape: `NextGeneration` is a nested loop
  over a freshly allocated `array2` that starts zeroed. The rule's first test writes 0 and
  its second writes 1. A dead cell with 0 to 2 neighbours fails both tests and keeps its
  initial 0. The method is proved equal to the pure specification `Step`.
- **The undo history** (`history.dfy`, module `History`). `collections.deque(maxlen=100)`
  becomes the class `BoundedDeque` with `Append` and `Pop` methods. Each `Append` leaves
  `LastN(old contents + [x], maxlen)`, and each `Pop` removes the newest entry. With
  appends alone, the contents are the newest `maxlen` of everything appended
  (`AppendAllKeepsNewest`); a pop breaks that link.
- **The playback controller** (`playback.dfy`, module `Playback`). The main loop becomes
  the class `Session`. It holds the grid, the history and the flags `runGame`,
  `nextState` and `previousState`.
  - `HandleEvent` is the ordered `elif` chain over one event.
  - `Tick` is the step after the events: advance, or rewind, or do nothing.
  - `Iterate` is one pass of `while True`.
  - Each method is specified by a pure function over the abstract state `View`:
    `OnEvent` (built on `Classify`, which picks the first matching branch), `OnTick`
    and `OnBatch`.

Grids are values (`seq<seq<int>>`). This matches the source, which never changes a
board after creating it: each generation, each refresh and each pop gives the loop a
different array object, so the history cannot alias the live grid.

The abstractions:
- A button press is `MouseButtonDown(button, hit)`. `hit` names the button under the
  pointer, or `OffButtons`. It stands for `Rect.collidepoint`. The four buttons are
  50 px wide at a 55 px pitch, so they do not overlap.
- The random grid that a refresh (or start-up) installs is a parameter `seed`. It must
  have shape `(col, row)` and hold only 0s and 1s, as `np.random.randint(0, 2,
  size=(col, row))` guarantees.
- A quit event makes `HandleEvent` report `quit`. `Iterate` then stops: it skips the
  remaining events and the step.

Two facts about `conway.py` that the model keeps:
- The board has shape `(col, row)` and `x` indexes columns.
- Refresh clears only `run_game`. It leaves `next_state`, `previous_state` and the
  history as they are.

## Model

| member | source | states |
|---|---|---|
| `Life.NextCell` | conway.py:133-137 | The `if`/`elif` chain, tested in the source's order, gives 0 or 1. It gives 1 exactly when the count is 3, or the cell is alive and the count is 2 (B3/S23). This covers underpopulation, overpopulation and dead cells staying dead. |
| `Life.Dead` | conway.py:125 | The zero-filled board has shape `(col, row)` and every cell is 0. `NextGeneration`'s loop invariant states that the cells it has not yet visited still hold this board's value. |
| `Life.AliveNeighbours` | conway.py:128-131 | The slice sum minus the centre. `Lower` is the start clamp and `Upper` is the stop cut back to the axis length. The result equals the independent count over the eight on-grid neighbours, with off-grid positions counting 0 (no wraparound), and lies between 0 and 8. |
| `Life.Step` | conway.py:125-137 | The next generation has the input's `(col, row)` shape, and every cell is 0 or 1. |
| `Life.NextGeneration` | conway.py:123-140 | The loop fills a fresh zeroed board. Each cell is the rule applied to the count from the unmodified input. The result has shape `(col, row)` with 0/1 cells and equals `Step`. The input is a value and is not changed. |
| `Life.RowWindow` | conway.py:128-131 | The clamped slice of a row around `y` (start `max(y-1,0)`, stop cut back to the row length) sums to the entries at `y-1`, `y` and `y+1` that exist. |
| `Life.ColumnWindow` | conway.py:128-131 | The clamped slice of rows around `x` sums to the rows `x-1`, `x` and `x+1` that exist. |
| `Life.WindowIsNeighbourhood` | conway.py:128-131 | The sum of the clamped 3×3 slice equals the centre cell plus the live cells among its eight on-grid neighbours. |
| `Life.StepByNeighbourCount` | conway.py:128-137 | Each next cell is the rule applied to the eight-neighbour reference count. |
| `Life.NextCellIsLocal` | conway.py:128-131 | Two grids that agree on a cell's clamped 3×3 window give that cell the same count and the same next value. |
| `Life.FirstColumnIgnoresLastColumn` | conway.py:128-131 | On a board at least 3 columns wide, changing the last column does not change any next cell in the first column: the window does not wrap. |
| `Life.CornerSeesThree` | conway.py:128-131 | The corner cell `(0,0)` counts only its three on-grid neighbours. |
| `Life.DeadIsFixedPoint` | conway.py:125-137 | An all-dead board of any shape steps to the same all-dead board. |
| `Life.LoneCellDies` | conway.py:133-137 | A live cell with no live cell in its window dies. |
| `Life.IsolatedCentreDies` | conway.py:125-137 | A 3×3 board whose only live cell is the centre becomes all dead. |
| `Life.BlinkerAlongXTurns` | conway.py:125-137 | On a 3×3 board a line of three along `x` steps to the line along `y`. |
| `Life.BlinkerAlongYTurns` | conway.py:125-137 | On a 3×3 board the line along `y` steps back to the line along `x`. |
| `Life.BlinkerOscillates` | conway.py:125-137 | The blinker has period 2: two steps restore it and one step does not. |
| `History.LastN` | conway.py:79 | What a queue with maximum length `n` keeps of the entries `s` appended to it: the last `min(|s|, n)` of them, in order. |
| `History.BoundedDeque.constructor` | conway.py:79 | The new history is empty with maximum length `maxlen`. |
| `History.BoundedDeque.Append` | conway.py:112 | After the append the contents are the newest `maxlen` of the old contents plus the new entry, and the length stays within the bound. |
| `History.BoundedDeque.Pop` | conway.py:115 | On a non-empty history it returns the newest entry and leaves the older ones in order. |
| `History.AppendBounded` | conway.py:79 | An append never takes the history past its maximum length. When that length is positive, the appended entry is the newest. |
| `History.AppendBelowLimit` | conway.py:112 | Below the maximum length, an append only adds the entry at the end. |
| `History.AppendAtLimit` | conway.py:112 | On a full history, an append removes only the oldest entry, keeps the rest in order and puts the new entry last. |
| `History.PopUndoesAppend` | conway.py:112-115 | A pop right after an append returns the appended entry. The remainder is the old history cut to one less than the bound. |
| `History.LastNAbsorbs` | conway.py:79 | Evicting early loses nothing that a later cut to the same bound would keep. |
| `History.AppendAllKeepsNewest` | conway.py:79 | Appending entries one by one leaves exactly the newest `maxlen` of everything appended, in order. |
| `History.HundredAndOneAppends` | conway.py:79 | 101 appends to an empty 100-entry history leave 100 entries, with the first one evicted. |
| `History.PopAfterThreeAppends` | conway.py:112-115 | After three appends to a history with room for them, the newest entry (the one a pop returns) is the third. |
| `Playback.Clicked` | conway.py:52-62 | A button's click test: a primary-button press (`MOUSEBUTTONDOWN`, button 1) whose `Hit` is that button, which stands for `collidepoint`. A predicate that defines the test and carries no contract. |
| `Playback.Released` | conway.py:94 | The inline release test repeated at conway.py:105: a `MOUSEBUTTONUP` of button 1, wherever the pointer is. A predicate that defines the test and carries no contract. |
| `Playback.Classify` | conway.py:88-106 | The branch the first-match `elif` chain takes, with each branch characterised on its own. Motion is skipped. A primary press on next, refresh, play/pause or previous takes that button's branch. A primary release ends the step when `nextState` holds. Otherwise it ends the rewind when `previousState` holds. Quit exits. |
| `Playback.OnEvent` | conway.py:88-106 | The effect of the branch `Classify` picks. Its own ensures states that the history is never touched and only a refresh replaces the grid. The flag results of each branch are stated by the lemmas `NextPressSetsFlags` through `ReleaseEndsRewind` below, and `MotionChangesNothing` and `OtherEventsChangeNothing` cover the events that change nothing. |
| `Playback.OnTick` | conway.py:111-117 | The loop step keeps the session well formed: 0/1 grids of shape `(col, row)`, and at most 100 history entries. |
| `Playback.OnBatch` | conway.py:88-109 | Handling a batch of events keeps the session well formed, as long as every grid a refresh may install is well formed. |
| `Playback.Session.constructor` | conway.py:78-86 | A new session is paused, with all three flags false, the start grid installed and an empty 100-entry history. |
| `Playback.Session.HandleEvent` | conway.py:88-109 | The new flags and grid are those of the first matching branch of the `elif` chain. It reports quit exactly for a quit event. |
| `Playback.Session.Tick` | conway.py:111-117 | The new grid and history are those of the step: advance if running, else pop if rewinding with a non-empty history, else unchanged. |
| `Playback.Session.Iterate` | conway.py:87-119 | One loop pass handles the events in order and then takes the step. If a quit comes first, it stops at once, before the remaining events and the step. |
| `Playback.MotionChangesNothing` | conway.py:89-90 | Pointer motion changes neither the flags, the grid nor the history. |
| `Playback.OtherEventsChangeNothing` | conway.py:88-109 | These events change nothing: other events, quit, presses of other buttons or off the controls, and releases of other buttons or with neither flag held. |
| `Playback.PlayPauseToggles` | conway.py:100-101 | Play/pause flips `runGame` only. |
| `Playback.NextPressSetsFlags` | conway.py:91-93 | Pressing next sets `runGame` and `nextState` and leaves the rest. |
| `Playback.ReleaseEndsStep` | conway.py:94-96 | A primary release while `nextState` holds clears `runGame` and `nextState`. Only this first matching branch runs, so `previousState` is kept. |
| `Playback.RefreshReseeds` | conway.py:97-99 | Refresh installs the new grid and clears `runGame`. The history and the other two flags stay. |
| `Playback.PreviousPressSetsFlags` | conway.py:102-104 | Pressing previous clears `runGame` and sets `previousState`. |
| `Playback.ReleaseEndsRewind` | conway.py:105-106 | A primary release while `previousState` holds, and `nextState` does not, clears `previousState` only. |
| `Playback.EventKeepsWellFormed` | conway.py:88-109 | An event keeps the session well formed when the grid a refresh installs is a `(col, row)` 0/1 grid. |
| `Playback.RunningAdvances` | conway.py:111-113 | While running, the pre-step grid becomes the newest history entry and the grid becomes its next generation. This happens whether or not previous is held. |
| `Playback.PausedRewindsOrWaits` | conway.py:114-116 | When paused with previous held and history present, the newest entry is popped into the grid. Otherwise nothing changes. |
| `Playback.RewindUndoesAdvance` | conway.py:111-116 | An advance, a press of previous and one more step restore the pre-advance grid. The history loses only what the bound evicted. |
| `Playback.RewindRestoresShortHistory` | conway.py:111-116 | From a history below the bound, the same sequence restores the history exactly. |
| `Playback.NextClickAdvancesOnce` | conway.py:87-119 | From a paused session, when the press of next and its release arrive in consecutive loop passes, exactly one generation is advanced. The release clears the flags again, so the pass after it does not advance. Holding next for more passes advances once per pass. |
| `Playback.SameBatchClickAdvancesNothing` | conway.py:87-119 | From a paused session, a press of next and its release in the same batch of events advance nothing. The release clears both flags before the step runs, so grid, history and flags are unchanged. |

## Left out

- Rendering is not modelled: `surface.fill`, the `pygame.draw.rect` calls in
  `next_generation` and `draw_matrix`, `Controls.draw` (including its play/pause icon
  choice), `display.update`, and loading and scaling the icons. These are foreign drawing
  calls with no logic to verify.
- Button hit-testing (`Rect.collidepoint`) and the float layout arithmetic behind it are
  not modelled. A press carries the button it lands on (`Hit`) instead.
- Random seeding (`np.random.randint` in `generate_start`) is not modelled. Start-up and
  refresh install a caller-supplied 0/1 grid of shape `(col, row)`.
- The quit path is not modelled beyond the reported `quit` flag: `pygame.quit` and
  `sys.exit` are left out.
- The 100 ms `pygame.time.delay` after a rewind is left out, because it has no effect on
  state.
- Command-line parsing with `click` (`--cell-size`, `--col`, `--row`) is left out. The
  shape is a parameter and `cell_size` only affects drawing.
- The `State` colour enumeration is left out. It is presentation only.
- Cell values other than 0 and 1 are outside the model: every grid operation requires a
  0/1 grid. Every grid the program builds is one, and with other values the source's
  count (the slice sum minus `matrix[x, y]`) would mean something else.
- `History.BoundedDeque.Pop`: requires a non-empty history. Python's `deque.pop` raises
  on an empty deque, but the only call is guarded by a non-empty check.
- The sum in the neighbour count cannot overflow, since at most nine cells hold 0 or 1, so
  numpy's fixed-width integers are modelled as unbounded.
