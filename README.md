# Rolling-window tic-tac-toe: the rules engine of the TicTacToe widget

This project models the game logic inside the `TicTacToe` widget of `app.py` and proves
properties of it. The game is tic-tac-toe with a house rule. Each player keeps at most three
marks on the board. When a player who already has three marks clicks an empty button, that
player's oldest mark is erased before the new one is placed.

The model keeps the widget's state as the source does:
- the nine buttons (their text `""`, `"X"` or `"O"`, their enabled flag, and whether the
  winning stylesheet is applied);
- `current_player` and `game_active`;
- `move_history`, a dictionary from each player to the list of that player's buttons, oldest
  first.

Modules:
- `Board` (board.dfy): the players, the cell values, the fixed table of eight lines, and the
  two read-only scans over it. `Winner` is what `check_winner` returns. `Highlighted` is the
  line selection of `highlight_winner`.
- `Rules` (rules.dfy): the widget's state as a value (`Game`). Each step of the event handlers
  is a function of that value: evict, the full-board fallback, place, highlight, toggle, and
  the whole `on_button_clicked` (`Click`). It also holds `Invariant`, the property of every
  reachable state.
- `Properties` (properties.dfy): the lemmas about those functions.
- `App` (app.dfy): the class `TicTacToe`. It keeps the buttons in three 9-element arrays and
  the other state in fields. Its methods update them in place, as the source's handlers do.
  Each method is proved to perform the step that the matching `Rules` function describes.

The full-board fallback in `on_button_clicked` (app.py:69-85) is dead code. It runs only when
every button is marked. The handler returns at line 65 for a marked clicked button before the
full-board test at line 69, so that test always sees an empty clicked button. The fallback is
modelled as written, both as `Rules.Fallback` and as `App.TicTacToe.FullBoardFallback`.
`Properties.FallbackSkippedAfterGuard` proves that after the guard the board is not full and
the fallback changes nothing, and the contract of `Rules.Click` excludes the draw outcome.
`Properties.ReachableBoardNeverFull` proves a stronger fact: no reachable board is full,
because each player holds at most three of the nine buttons.

The handler returns nothing and has no range check on `index`. Its only caller passes
`row * 3 + col` (app.py:46-47), so the model takes the index as a value from 0 to 8.

## Model

| member | source | states |
|---|---|---|
| Board.Other | app.py:113-114 | the player handed the turn is never the one who had it |
| Board.OtherInvolution | app.py:114 | toggling twice gives back the original player |
| Board.ScanFrom | app.py:129-133 | the scan from line k yields a mark iff some line from k on is complete; that mark fills a complete line, and every earlier line in the scan is incomplete |
| Board.Winner | app.py:117-133 | check_winner reports a mark iff one of the eight lines holds three equal marks; the reported mark fills such a line; None means no line is complete |
| Board.Highlighted | app.py:147-155 | after visiting lines 0..n, a button is highlighted iff it already was or lies on one of those lines completed by the winner |
| Rules.Initial | app.py:21-48 | the state built by __init__ is well formed: nine buttons and a history list for both players |
| Rules.Evict | app.py:91-95 | erasing a player's oldest mark keeps the state well formed |
| Rules.EvictEach | app.py:71-79 | the fallback loop over the players removes something (removed_any) iff some listed player had a non-empty history; if nothing is removed the state is unchanged; no history grows |
| Properties.EvictEachHistories | app.py:72-76 | over distinct players, each listed player with a non-empty history loses exactly its oldest entry; every other history, the turn and game_active are kept |
| Properties.EvictEachButtons | app.py:75-78 | over distinct players, the button of each popped oldest entry is cleared, enabled and unstyled; every other button is kept |
| Rules.Fallback | app.py:69-85 | the fallback declares a draw iff the board is full and both histories are empty; a draw changes only game_active, to false |
| Properties.FallbackPops | app.py:69-80 | on a full board the fallback pops the oldest entry of X and of O where there is one and clears those buttons; every other button and history is kept; the turn is kept, and game_active too unless it is a draw |
| Rules.Place | app.py:98-101 | placing the mover's mark keeps the state well formed |
| Rules.Play | app.py:87-101 | the capacity rule followed by placement keeps the state well formed |
| Rules.Highlight | app.py:135-159 | after highlight_winner every button is disabled, and a button is highlighted iff it was or lies on a line completed by the winner; board and histories are unchanged |
| Rules.Toggle | app.py:113-114 | toggle_player always changes current_player |
| Rules.Click | app.py:60-111 | on_button_clicked rejects a click iff the game is over or the button already shows a mark; no click ends in the fallback's draw; the state stays well formed |
| Properties.InitialInvariant | app.py:21-25 | the initial and reset state satisfies the invariant: histories mirror the board, no line is complete, empty buttons are enabled, nothing is highlighted |
| Properties.ClickRejected | app.py:60-66 | a click on a finished game or on a marked button is rejected and leaves the state unchanged |
| Properties.FallbackSkippedAfterGuard | app.py:64-69 | once the occupancy guard has passed, the board is not full and the fallback changes nothing |
| Properties.ReachableBoardNeverFull | app.py:69-101 | no board that satisfies the invariant is full: each player holds at most three buttons |
| Properties.PlayKeepsMirrors | app.py:87-101 | after the capacity rule and placement, each history lists exactly that player's buttons, with no repeats and at most three entries; exactly the empty buttons are enabled; nothing is highlighted |
| Properties.OnlyMoverCompletes | app.py:87-103 | after a move, every complete line belongs to the mover and passes through the clicked button |
| Properties.PlayFrame | app.py:87-101 | the capacity rule and placement put the mover's mark on the clicked button; at capacity they erase the mover's oldest mark, which is never the clicked button; no other button's text changes; the opponent's history is untouched; the mover's history drops its oldest entry at capacity and ends with the clicked button |
| Properties.ClickFrame | app.py:87-101 | an accepted click puts the mover's mark on the clicked button; at capacity it erases the mover's oldest mark, which is never the clicked button; no other button's text changes; the opponent's history is untouched; the mover's history drops its oldest entry at capacity and ends with the clicked button, with at most three entries |
| Properties.ClickTurnOrder | app.py:103-111 | an accepted click is a win iff it completes a line; a win is the mover's, keeps the mover current, ends the game, disables every button and highlights exactly the mover's completed lines; otherwise the turn passes to the opponent and the game stays active with no complete line |
| Properties.ClickPreservesInvariant | app.py:60-111 | every click preserves the invariant of reachable states |
| Properties.ToggleInvolution | app.py:113-114 | toggle_player applied twice leaves the state unchanged |
| Properties.RollingWindowExample | app.py:87-111 | with X on 0, 5, 6 and O on 1, 2, 3, X's click on 4 erases X's mark at 0 and leaves the histories [5, 6, 4] and [1, 2, 3], with O to move |
| Properties.TopRowWinExample | app.py:103-109 | with X on 0, 1 and O on 3, 4, X's click on 2 wins for X, keeps X current, ends the game and disables every button |
| App.TicTacToe.constructor | app.py:16-48 | the new widget is in the initial state and satisfies the invariant |
| App.TicTacToe.ClearOldest | app.py:91-95 | pops the player's oldest history entry and clears, enables and unhighlights that button, as Rules.Evict describes |
| App.TicTacToe.FullBoardFallback | app.py:69-85 | performs the fallback as Rules.Fallback describes, and reports whether it declared a draw |
| App.TicTacToe.PlaceMark | app.py:87-101 | applies the capacity rule and places the mark as Rules.Play describes |
| App.TicTacToe.TogglePlayer | app.py:113-115 | changes only current_player, to the opponent |
| App.TicTacToe.CheckWinner | app.py:117-133 | returns the mark of the first complete line in table order; it returns a mark iff some line is complete, and that mark fills a complete line |
| App.TicTacToe.HighlightWinner | app.py:135-159 | highlights the buttons of the winner's completed lines and disables every button, as Rules.Highlight describes |
| App.TicTacToe.ResetBoard | app.py:161-170 | from any state, returns to the initial state, so resetting twice is the same as resetting once; the result satisfies the invariant |
| App.TicTacToe.OnButtonClicked | app.py:60-111 | performs the whole click as Rules.Click describes, and preserves the invariant |

## Left out

- Widget construction, layout, fonts and fixed sizes (app.py:16-58), and `main` with the Qt
  event loop (app.py:173-181): user-interface plumbing over a library that is not part of
  this model.
- The status label and the message boxes (app.py:84, 106-107, 115, 168): presentation side
  effects. The `Outcome` value returned by `OnButtonClicked` (Rejected, Placed, Won, Drawn)
  stands in for them. The source's handler returns nothing.
- Stylesheet strings (app.py:78, 95, 153-155, 165): only whether a button carries the winning
  stylesheet is modelled, as a boolean.
- Button indices outside 0..8, including Python's negative-index wrap-around: the index has
  type `Idx` (0..8). The only caller is the per-button callback bound to `row * 3 + col`
  (app.py:46-47).
- Clicks on disabled buttons: Qt does not deliver them. Like the source's handler, the model
  guards only on `game_active` and the button's text.
- The in-place list mutation through an alias (`player_hist.pop(0)`, then `append` through
  the dictionary): modelled as reassigning the history map entry, which has the same effect.
- The `.get(player, [])` default for a missing history key: both keys are always present
  (app.py:25, 170), and the model's well-formedness condition states this.
- App.TicTacToe.OnButtonClicked: requires only nine buttons and both history lists. It
  promises the invariant afterwards only when the invariant held before, which the
  constructor and ResetBoard establish.
- App.TicTacToe.TogglePlayer: does not promise the invariant. After a win it would make the
  current player differ from the winner. The source calls it only after a move that did not
  win, and OnButtonClicked's contract covers that use.
- Rules.Initial, Rules.Evict, Rules.Place, Rules.Play: their own contracts state only that
  the state stays well formed. What these steps do to the buttons and histories is stated by
  Properties.InitialInvariant, Properties.PlayKeepsMirrors and Properties.ClickFrame.
