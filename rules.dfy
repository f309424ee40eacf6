/** The state of the TicTacToe widget as a value, and each step of its event
    handlers as a function of that value. The class in module App runs these
    steps on its arrays and fields; its methods are specified by the functions
    here, and module Properties proves what the rules promise about them. */
module Rules {
  import opened Board

  /** What a click did. The source returns nothing: this tag stands for the
      status label and message box it updates on the way out. */
  datatype Outcome = Rejected | Placed | Won(winner: Player) | Drawn

  /** The widget's state: per button its text, enabled flag and whether the
      winning stylesheet is applied; current_player; game_active; and
      move_history, each player's marked cells oldest first. */
  datatype Game = Game(
    board: seq<Cell>,
    enabled: seq<bool>,
    highlighted: seq<bool>,
    current: Player,
    active: bool,
    history: map<Player, seq<Idx>>)

  /** Nine buttons, and a history list for both players. */
  predicate WellFormed(g: Game) {
    |g.board| == 9 && |g.enabled| == 9 && |g.highlighted| == 9 &&
    forall p: Player :: p in g.history
  }

  /** The state __init__ builds: nine empty enabled buttons, "X" to move, an
      active game, two empty histories. reset_board returns to it. */
  function Initial(): (g: Game)
    ensures WellFormed(g)
  {
    var history: map<Player, seq<Idx>> := map[X := [], O := []];
    assert forall p: Player :: p in history by {
      forall p: Player ensures p in history { if p == X { } else { } }
    }
    Game(seq(9, _ => Empty), seq(9, _ => true), seq(9, _ => false), X, true, history)
  }

  /** Pop `p`'s oldest history entry and clear that button: text "",
      enabled, default stylesheet. */
  function Evict(g: Game, p: Player): (r: Game)
    requires WellFormed(g) && |g.history[p]| > 0
    ensures WellFormed(r)
  {
    var i := g.history[p][0];
    g.(board := g.board[i := Empty], enabled := g.enabled[i := true],
       highlighted := g.highlighted[i := false],
       history := g.history[p := g.history[p][1..]])
  }

  /** The players `ps` are listed without repeats. */
  predicate Distinct(ps: seq<Player>) {
    forall i, j :: 0 <= i < j < |ps| ==> ps[i] != ps[j]
  }

  /** Button `i` is the oldest mark of some player of `ps` that has one. */
  ghost predicate Popped(g: Game, ps: seq<Player>, i: int)
    requires WellFormed(g)
  {
    exists q :: q in ps && |g.history[q]| > 0 && g.history[q][0] == i
  }

  /** Button `i` of `r` shows no mark, is enabled and has the default
      stylesheet. */
  predicate Cleared(r: Game, i: Idx)
    requires WellFormed(r)
  {
    r.board[i] == Empty && r.enabled[i] && !r.highlighted[i]
  }

  /** Button `i` is the same in `g` and `r`. */
  predicate Kept(g: Game, r: Game, i: Idx)
    requires WellFormed(g) && WellFormed(r)
  {
    r.board[i] == g.board[i] && r.enabled[i] == g.enabled[i] &&
    r.highlighted[i] == g.highlighted[i]
  }

  /** The loop of the full-board fallback over the players `ps`, in order:
      each player with a non-empty history loses its oldest mark (lemmas
      EvictEachHistories and EvictEachButtons in module Properties state the
      effect). The flag is `removed_any`. */
  function EvictEach(g: Game, ps: seq<Player>): (r: (Game, bool))
    requires WellFormed(g)
    ensures WellFormed(r.0)
    ensures !r.1 ==> r.0 == g
    ensures forall q :: |r.0.history[q]| <= |g.history[q]|
    ensures r.1 <==> exists p :: p in ps && |g.history[p]| > 0
    decreases |ps|
  {
    if ps == [] then (g, false)
    else
      var (g1, removed) := EvictEach(g, ps[..|ps| - 1]);
      var p := ps[|ps| - 1];
      if |g1.history[p]| > 0 then (Evict(g1, p), true) else (g1, removed)
  }

  /** The full-board fallback: on a board with every button marked, X and
      then O lose their oldest mark; when neither has one, the game ends in a
      draw (the flag) and the click goes no further. Lemma FallbackPops in
      module Properties states what the evictions do. */
  function Fallback(g: Game): (r: (Game, bool))
    requires WellFormed(g)
    ensures WellFormed(r.0)
    ensures r.1 <==> Full(g.board) && g.history[X] == [] && g.history[O] == []
    ensures r.1 ==> r.0 == g.(active := false)
  {
    if !Full(g.board) then (g, false)
    else
      var (g1, removedAny) := EvictEach(g, [X, O]);
      if removedAny then (g1, false) else (g1.(active := false), true)
  }

  /** Write the mover's mark on button `index`, disable it and append `index`
      to the mover's history. */
  function Place(g: Game, index: Idx): (r: Game)
    requires WellFormed(g)
    ensures WellFormed(r)
  {
    var p := g.current;
    g.(board := g.board[index := Mark(p)], enabled := g.enabled[index := false],
       history := g.history[p := g.history[p] + [index]])
  }

  /** The capacity rule and the placement: a mover with exactly three
      recorded marks first loses the oldest one. */
  function Play(g: Game, index: Idx): (r: Game)
    requires WellFormed(g)
    ensures WellFormed(r)
  {
    var p := g.current;
    var g' := if |g.history[p]| == 3 then Evict(g, p) else g;
    Place(g', index)
  }

  /** highlight_winner: the buttons on every line `w` has completed get the
      winning stylesheet, and every button is disabled. */
  function Highlight(g: Game, w: Player): (r: Game)
    requires WellFormed(g)
    ensures WellFormed(r)
    ensures r.board == g.board && r.history == g.history
    ensures forall i :: 0 <= i < 9 ==> !r.enabled[i]
    ensures forall i :: 0 <= i < 9 ==>
      (r.highlighted[i] <==> g.highlighted[i] || OnWinningLine(g.board, w, i))
  {
    g.(highlighted := Highlighted(g.highlighted, g.board, w, |Lines|),
       enabled := seq(9, _ => false))
  }

  /** toggle_player. */
  function Toggle(g: Game): (r: Game)
    ensures r.current != g.current
  {
    g.(current := Other(g.current))
  }

  /** on_button_clicked(index): ignore the click when the game is over or the
      button is marked; run the full-board fallback; apply the capacity rule
      and place the mark; on a win end the game and highlight, otherwise hand
      the turn over. */
  function Click(g: Game, index: Idx): (r: (Game, Outcome))
    requires WellFormed(g)
    ensures WellFormed(r.0)
    ensures r.1 == Rejected <==> !g.active || g.board[index] != Empty
    ensures r.1 != Drawn
  {
    if !g.active then (g, Rejected)
    else if g.board[index] != Empty then (g, Rejected)
    else
      var (g1, drawn) := Fallback(g);
      if drawn then (g1, Drawn)
      else
        var g2 := Play(g1, index);
        var w := Winner(g2.board);
        if w.Some? then (Highlight(g2.(active := false), w.value), Won(w.value))
        else (Toggle(g2), Placed)
  }

  predicate NoDuplicates(h: seq<Idx>) {
    forall i, j :: 0 <= i < j < |h| ==> h[i] != h[j]
  }

  /** `h` is a faithful record of `p`'s marks: at most three entries, no
      repeats, and exactly the buttons that show `p`. */
  ghost predicate Mirrors(b: seq<Cell>, h: seq<Idx>, p: Player)
    requires |b| == 9
  {
    |h| <= 3 && NoDuplicates(h) &&
    forall i :: 0 <= i < 9 ==> (b[i] == Mark(p) <==> i in h)
  }

  /** The invariant of every state the widget reaches. Both histories mirror
      the board. While the game is active no line is complete, exactly the
      empty buttons are enabled and none is highlighted. Once it is over,
      current_player is the winner that check_winner reports, every button is
      disabled and exactly the cells of the winner's lines are highlighted. */
  ghost predicate Invariant(g: Game) {
    WellFormed(g) &&
    Mirrors(g.board, g.history[X], X) && Mirrors(g.board, g.history[O], O) &&
    (g.active ==>
      !HasWin(g.board) &&
      (forall i :: 0 <= i < 9 ==> (g.enabled[i] <==> g.board[i] == Empty)) &&
      (forall i :: 0 <= i < 9 ==> !g.highlighted[i])) &&
    (!g.active ==>
      Winner(g.board) == Some(g.current) &&
      (forall i :: 0 <= i < 9 ==> !g.enabled[i]) &&
      (forall i :: 0 <= i < 9 ==> (g.highlighted[i] <==> OnWinningLine(g.board, g.current, i))))
  }
}
