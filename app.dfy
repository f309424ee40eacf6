/** The TicTacToe widget's rules engine as a class: the nine buttons are three
    arrays (text, enabled flag, winning stylesheet), and the event handlers
    update them and the fields in place. Each method is specified by the
    function of module Rules that describes its step; the class invariant
    Valid() is the invariant of module Rules. */
module App {
  import opened Board
  import opened Rules
  import opened Properties

  class TicTacToe {
    /** The buttons' texts, enabled flags and winning stylesheets. */
    const cells: array<Cell>
    const enabled: array<bool>
    const highlighted: array<bool>

    var currentPlayer: Player
    var gameActive: bool
    /** Each player's marked buttons, oldest first. */
    var moveHistory: map<Player, seq<Idx>>

    /** The widget's state as a value. */
    ghost function State(): Game
      reads this, cells, enabled, highlighted
    {
      Game(cells[..], enabled[..], highlighted[..], currentPlayer, gameActive, moveHistory)
    }

    /** Nine buttons with separate flag arrays, and both history lists. */
    ghost predicate Ready()
      reads this, cells, enabled, highlighted
    {
      cells.Length == 9 && enabled.Length == 9 && highlighted.Length == 9 &&
      enabled != highlighted && Rules.WellFormed(State())
    }

    /** The object invariant: every state reached by the public operations. */
    ghost predicate Valid()
      reads this, cells, enabled, highlighted
    {
      Ready() && Invariant(State())
    }

    /** __init__: nine empty enabled buttons, "X" to move, an active game and
        empty histories. */
    constructor ()
      ensures Valid() && State() == Initial()
      ensures fresh(cells) && fresh(enabled) && fresh(highlighted)
    {
      currentPlayer := X;
      gameActive := true;
      moveHistory := map[X := [], O := []];
      cells := new Cell[9](_ => Empty);
      enabled := new bool[9](_ => true);
      highlighted := new bool[9](_ => false);
      new;
      assert cells[..] == Initial().board;
      assert enabled[..] == Initial().enabled;
      assert highlighted[..] == Initial().highlighted;
      InitialInvariant();
    }

    /** Pop `p`'s oldest history entry and reset that button. */
    method ClearOldest(p: Player)
      requires Ready() && |moveHistory[p]| > 0
      modifies this, cells, enabled, highlighted
      ensures Ready() && State() == Evict(old(State()), p)
    {
      var idx := moveHistory[p][0];
      moveHistory := moveHistory[p := moveHistory[p][1..]];
      cells[idx] := Empty;
      enabled[idx] := true;
      highlighted[idx] := false;
    }

    /** The full-board fallback at the head of on_button_clicked. On a full
        board, X and then O lose their oldest mark; if neither has one, the
        game is over as a draw, which `drawn` reports. */
    method FullBoardFallback() returns (drawn: bool)
      requires Ready()
      modifies this, cells, enabled, highlighted
      ensures Ready() && (State(), drawn) == Fallback(old(State()))
    {
      drawn := false;
      if Full(cells[..]) {
        var players := [X, O];
        var removedAny := false;
        for k := 0 to |players|
          invariant Ready()
          invariant (State(), removedAny) == EvictEach(old(State()), players[..k])
        {
          var p := players[k];
          assert players[..k + 1][..k] == players[..k];
          if |moveHistory[p]| > 0 {
            ClearOldest(p);
            removedAny := true;
          }
        }
        assert players[..|players|] == [X, O];
        if !removedAny {
          gameActive := false;
          drawn := true;
        }
      }
    }

    /** toggle_player. */
    method TogglePlayer()
      modifies this
      ensures State() == Toggle(old(State()))
    {
      currentPlayer := if currentPlayer == X then O else X;
    }

    /** check_winner: scan the eight lines in order and report the mark of the
        first one whose three buttons show the same mark. */
    method CheckWinner() returns (winner: Option<Player>)
      requires cells.Length == 9
      ensures winner == Winner(cells[..])
      ensures winner.Some? <==> HasWin(cells[..])
      ensures winner.Some? ==>
        exists k :: 0 <= k < |Lines| && WonBy(cells[..], Lines[k], winner.value)
    {
      for k := 0 to |Lines|
        invariant ScanFrom(cells[..], k) == Winner(cells[..])
      {
        var (a, b, c) := Lines[k];
        var ta, tb, tc := cells[a], cells[b], cells[c];
        if ta != Empty && ta == tb && tb == tc {
          return Some(ta.player);
        }
      }
      return None;
    }

    /** highlight_winner: give the winning stylesheet to the buttons of every
        line showing `winnerSymbol` three times, then disable every button. */
    method HighlightWinner(winnerSymbol: Player)
      requires Ready()
      modifies enabled, highlighted
      ensures Ready() && State() == Highlight(old(State()), winnerSymbol)
    {
      for k := 0 to |Lines|
        invariant enabled[..] == old(enabled[..])
        invariant highlighted[..] == Highlighted(old(highlighted[..]), cells[..], winnerSymbol, k)
      {
        var (a, b, c) := Lines[k];
        if cells[a] != Empty && cells[a] == cells[b] && cells[b] == cells[c] &&
           cells[c] == Mark(winnerSymbol)
        {
          highlighted[a] := true;
          highlighted[b] := true;
          highlighted[c] := true;
        }
      }
      for i := 0 to enabled.Length
        invariant forall j :: 0 <= j < i ==> !enabled[j]
        invariant highlighted[..] == Highlighted(old(highlighted[..]), cells[..], winnerSymbol, |Lines|)
      {
        enabled[i] := false;
      }
      assert enabled[..] == seq(9, _ => false);
    }

    /** reset_board: clear, enable and unhighlight every button, give the move
        to "X", reactivate the game and empty both histories, whatever the
        state was before; so resetting twice is resetting once. */
    method ResetBoard()
      requires Ready()
      modifies this, cells, enabled, highlighted
      ensures Valid() && State() == Initial()
    {
      for i := 0 to cells.Length
        invariant forall j :: 0 <= j < i ==> cells[j] == Empty && enabled[j] && !highlighted[j]
      {
        cells[i] := Empty;
        enabled[i] := true;
        highlighted[i] := false;
      }
      currentPlayer := X;
      gameActive := true;
      moveHistory := map[X := [], O := []];
      assert cells[..] == Initial().board;
      assert enabled[..] == Initial().enabled;
      assert highlighted[..] == Initial().highlighted;
      InitialInvariant();
    }

    /** The capacity rule and the placement in on_button_clicked: a mover
        with three recorded marks loses the oldest one, then the mover's mark
        goes on button `index`, which is disabled and recorded last. */
    method PlaceMark(index: Idx)
      requires Ready()
      modifies this, cells, enabled, highlighted
      ensures Ready() && State() == Play(old(State()), index)
    {
      if |moveHistory[currentPlayer]| == 3 {
        ClearOldest(currentPlayer);
      }
      cells[index] := Mark(currentPlayer);
      enabled[index] := false;
      moveHistory := moveHistory[currentPlayer := moveHistory[currentPlayer] + [index]];
    }

    /** on_button_clicked(index): the handler bound to button `index`. */
    method OnButtonClicked(index: Idx) returns (outcome: Outcome)
      requires Ready()
      modifies this, cells, enabled, highlighted
      ensures Ready()
      ensures (State(), outcome) == Click(old(State()), index)
      ensures old(Valid()) ==> Valid()
    {
      ghost var g := State();
      if !gameActive {
        return Rejected;
      }
      if cells[index] != Empty {
        return Rejected;
      }

      var drawn := FullBoardFallback();
      if drawn {
        return Drawn;
      }

      PlaceMark(index);

      var winner := CheckWinner();
      if winner.Some? {
        gameActive := false;
        HighlightWinner(winner.value);
        outcome := Won(winner.value);
      } else {
        TogglePlayer();
        outcome := Placed;
      }
      if Invariant(g) {
        ClickPreservesInvariant(g, index);
      }
    }
  }
}
