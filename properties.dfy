/** What the rules of the rolling-window game guarantee: the invariant holds
    initially and after every click, a click changes only the cells the rules
    allow, only the mover can win, the turn passes exactly when nobody wins,
    and the full-board fallback of on_button_clicked never fires. */
module Properties {
  import opened Board
  import opened Rules

  /** The state built by __init__ and by reset_board satisfies the invariant. */
  lemma InitialInvariant()
    ensures Invariant(Initial())
  {
    var g := Initial();
    assert forall k :: 0 <= k < |Lines| ==> !Complete(g.board, Lines[k]);
  }

  /** Each history mirrors the board, whichever player is asked about. */
  lemma MirrorsOf(g: Game, p: Player)
    requires Invariant(g)
    ensures Mirrors(g.board, g.history[p], p)
  {
    if p == X { } else { }
  }

  /** A click on a finished game or on a marked button changes nothing. */
  lemma ClickRejected(g: Game, index: Idx)
    requires WellFormed(g) && (!g.active || g.board[index] != Empty)
    ensures Click(g, index) == (g, Rejected)
  {
  }

  /** Once the guard on the clicked button has passed, that button is empty,
      so the board is not full and the fallback leaves the state alone. */
  lemma FallbackSkippedAfterGuard(g: Game, index: Idx)
    requires WellFormed(g) && g.board[index] == Empty
    ensures !Full(g.board) && Fallback(g) == (g, false)
  {
  }

  /** The fallback loop over distinct players `ps`: each listed player with
      a non-empty history loses exactly its oldest entry, every other history
      is kept, and the turn and game_active are untouched. */
  lemma {:induction false} EvictEachHistories(g: Game, ps: seq<Player>)
    requires WellFormed(g) && Distinct(ps)
    ensures var r := EvictEach(g, ps).0;
      && r.current == g.current && r.active == g.active
      && forall q :: r.history[q] ==
           (if q in ps && |g.history[q]| > 0 then g.history[q][1..] else g.history[q])
    decreases |ps|
  {
    if ps != [] {
      var pre, p := ps[..|ps| - 1], ps[|ps| - 1];
      assert ps == pre + [p];
      assert Distinct(pre);
      EvictEachHistories(g, pre);
      var g1 := EvictEach(g, pre).0;
      assert p !in pre;
      var r := EvictEach(g, ps).0;
      assert r == if |g1.history[p]| > 0 then Evict(g1, p) else g1;
      forall q
        ensures r.history[q] ==
          (if q in ps && |g.history[q]| > 0 then g.history[q][1..] else g.history[q])
      {
        if q != p {
          assert q in ps <==> q in pre;
        }
      }
    }
  }

  /** The fallback loop over distinct players `ps` clears exactly the buttons
      of the popped oldest entries and keeps every other button. */
  lemma {:induction false} EvictEachButtons(g: Game, ps: seq<Player>)
    requires WellFormed(g) && Distinct(ps)
    ensures var r := EvictEach(g, ps).0;
      forall i: Idx ::
        (Popped(g, ps, i) ==> Cleared(r, i)) && (!Popped(g, ps, i) ==> Kept(g, r, i))
    decreases |ps|
  {
    if ps != [] {
      var pre, p := ps[..|ps| - 1], ps[|ps| - 1];
      assert ps == pre + [p];
      assert Distinct(pre);
      EvictEachButtons(g, pre);
      EvictEachHistories(g, pre);
      EvictEachHistories(g, ps);
      var g1 := EvictEach(g, pre).0;
      var r := EvictEach(g, ps).0;
      assert g1.history[p] == g.history[p];
      assert r == if |g1.history[p]| > 0 then Evict(g1, p) else g1;
      forall i: Idx
        ensures (Popped(g, ps, i) ==> Cleared(r, i)) && (!Popped(g, ps, i) ==> Kept(g, r, i))
      {
        if |g.history[p]| > 0 && g.history[p][0] == i {
          assert Popped(g, ps, i);
        } else {
          if Popped(g, ps, i) {
            var q :| q in ps && |g.history[q]| > 0 && g.history[q][0] == i;
            assert q in pre;
          }
          if Popped(g, pre, i) {
            var q :| q in pre && |g.history[q]| > 0 && g.history[q][0] == i;
            assert q in ps;
          }
        }
      }
    }
  }

  /** On a full board the fallback pops the oldest entry of each player that
      has one and clears that button; every other button and history is
      kept, and unless the game is drawn the turn and game_active are too. */
  lemma FallbackPops(g: Game)
    requires WellFormed(g) && Full(g.board)
    ensures var (r, drawn) := Fallback(g);
      && r.current == g.current
      && (!drawn ==> r.active == g.active)
      && (forall q :: r.history[q] ==
            (if |g.history[q]| > 0 then g.history[q][1..] else g.history[q]))
      && forall i: Idx ::
           (Popped(g, [X, O], i) ==> Cleared(r, i)) && (!Popped(g, [X, O], i) ==> Kept(g, r, i))
  {
    assert Distinct([X, O]);
    EvictEachHistories(g, [X, O]);
    EvictEachButtons(g, [X, O]);
    forall q ensures q in [X, O] { if q == X { } else { } }
  }

  /** The buttons a history lists. */
  ghost function Elements(h: seq<Idx>): set<int> {
    set x | x in h
  }

  /** A list holds at most as many distinct entries as it is long. */
  lemma {:induction false} ElementsAtMostLength(h: seq<Idx>)
    ensures |Elements(h)| <= |h|
  {
    if h != [] {
      var t := h[..|h| - 1];
      var e := h[|h| - 1];
      ElementsAtMostLength(t);
      assert Elements(h) == Elements(t) + {e} by {
        assert h == t + [e];
      }
      if e in Elements(t) {
        assert Elements(t) + {e} == Elements(t);
      } else {
        assert |Elements(t) + {e}| == |Elements(t)| + 1;
      }
    }
  }

  /** No reachable board is full: each player holds at most three of the nine
      buttons, so the full-board fallback cannot fire even in principle. */
  lemma ReachableBoardNeverFull(g: Game)
    requires Invariant(g)
    ensures !Full(g.board)
  {
    var sx, so := Elements(g.history[X]), Elements(g.history[O]);
    ElementsAtMostLength(g.history[X]);
    ElementsAtMostLength(g.history[O]);
    assert |sx + so| <= 6;
    if Full(g.board) {
      forall i | 0 <= i < 9 ensures i in sx + so {
        MarkedIsListed(g, i);
      }
      NineButtons(sx + so);
      assert false;
    }
  }

  /** A marked button is listed in its owner's history. */
  lemma MarkedIsListed(g: Game, i: Idx)
    requires Invariant(g) && g.board[i] != Empty
    ensures i in Elements(g.history[X]) + Elements(g.history[O])
  {
    var p := g.board[i].player;
    MirrorsOf(g, p);
    assert i in g.history[p];
    if p == X { } else { }
  }

  /** A set holding every button index has at least nine elements. */
  lemma NineButtons(s: set<int>)
    requires forall i :: 0 <= i < 9 ==> i in s
    ensures |s| >= 9
  {
    var all: set<int> := {0, 1, 2, 3, 4, 5, 6, 7, 8};
    assert |all| == 9;
    SubsetCardinality(all, s);
  }

  /** A subset is no larger than its superset. */
  lemma SubsetCardinality(a: set<int>, b: set<int>)
    requires a <= b
    ensures |a| <= |b|
  {
    assert b == a + (b - a);
  }

  /** Dropping the head of a duplicate-free list removes exactly that entry. */
  lemma InTail(h: seq<Idx>, i: int)
    requires NoDuplicates(h) && |h| > 0
    ensures i in h[1..] <==> i in h && i != h[0]
  {
  }

  /** The capacity rule and the placement keep both histories in step with the
      board, keep exactly the empty buttons enabled and highlight nothing. */
  lemma PlayKeepsMirrors(g: Game, index: Idx)
    requires Invariant(g) && g.active && g.board[index] == Empty
    ensures var g2 := Play(g, index);
      Mirrors(g2.board, g2.history[X], X) && Mirrors(g2.board, g2.history[O], O) &&
      (forall i :: 0 <= i < 9 ==> (g2.enabled[i] <==> g2.board[i] == Empty)) &&
      (forall i :: 0 <= i < 9 ==> !g2.highlighted[i])
  {
    var p := g.current;
    var q := Other(p);
    var h := g.history[p];
    var g1 := if |h| == 3 then Evict(g, p) else g;
    var h1 := g1.history[p];
    var g2 := Play(g, index);
    assert g2 == Place(g1, index);
    assert index !in h;
    if |h| == 3 {
      forall i ensures i in h1 <==> i in h && i != h[0] {
        InTail(h, i);
      }
      assert g.board[h[0]] == Mark(p);
    }
    assert NoDuplicates(h1);
    assert h1 + [index] == g2.history[p];
    forall i | 0 <= i < 9 ensures g2.board[i] == Mark(p) <==> i in g2.history[p] {
      assert i in h1 + [index] <==> i in h1 || i == index;
    }
    assert X == p || O == p;
  }

  /** After the capacity rule and the placement, every complete line is one
      of the mover's and passes through the clicked button: a line without
      that button was complete before the click, or else runs through the
      evicted cell, which is now empty. */
  lemma OnlyMoverCompletes(g: Game, index: Idx)
    requires Invariant(g) && g.active && g.board[index] == Empty
    ensures var b2 := Play(g, index).board;
      forall k :: 0 <= k < |Lines| && Complete(b2, Lines[k]) ==>
        WonBy(b2, Lines[k], g.current) && InLine(Lines[k], index)
  {
  }

  /** The frame of the capacity rule and the placement: the mover's mark
      appears on the clicked button; at capacity the mover's oldest mark,
      never the clicked button, is erased; no other button's text changes;
      the opponent's history is untouched; the mover's history drops its
      oldest entry at capacity and ends with the clicked button. */
  lemma PlayFrame(g: Game, index: Idx)
    requires Invariant(g) && g.board[index] == Empty
    ensures var g2 := Play(g, index);
      var p := g.current;
      var h := g.history[p];
      && g2.board[index] == Mark(p)
      && (|h| == 3 ==> h[0] != index && g2.board[h[0]] == Empty)
      && (forall i :: 0 <= i < 9 && i != index && !(|h| == 3 && i == h[0]) ==>
            g2.board[i] == g.board[i])
      && g2.history[Other(p)] == g.history[Other(p)]
      && g2.history[p] == (if |h| == 3 then h[1..] else h) + [index]
  {
    var p := g.current;
    var h := g.history[p];
    MirrorsOf(g, p);
    if |h| == 3 {
      assert g.board[h[0]] == Mark(p);
    }
  }

  /** The frame of a click that gets past the guard: it is placed or won by
      the mover, it does to the button texts and histories what the capacity
      rule and the placement do (PlayFrame), and the mover's history never
      exceeds three entries. */
  lemma ClickFrame(g: Game, index: Idx)
    requires Invariant(g) && g.active && g.board[index] == Empty
    ensures var (g', out) := Click(g, index);
      var p := g.current;
      var h := g.history[p];
      && (out == Placed || out == Won(p))
      && g'.board[index] == Mark(p)
      && (|h| == 3 ==> h[0] != index && g'.board[h[0]] == Empty)
      && (forall i :: 0 <= i < 9 && i != index && !(|h| == 3 && i == h[0]) ==>
            g'.board[i] == g.board[i])
      && g'.history[Other(p)] == g.history[Other(p)]
      && g'.history[p] == (if |h| == 3 then h[1..] else h) + [index]
      && |g'.history[p]| <= 3
  {
    FallbackSkippedAfterGuard(g, index);
    OnlyMoverCompletes(g, index);
    PlayFrame(g, index);
    var g2 := Play(g, index);
    var (g', out) := Click(g, index);
    var w := Winner(g2.board);
    if w.Some? {
      var k :| 0 <= k < |Lines| && WonBy(g2.board, Lines[k], w.value);
      assert Complete(g2.board, Lines[k]);
    }
    assert g'.board == g2.board && g'.history == g2.history;
  }

  /** Who moves next. A click that completes a line is reported as a win for
      the mover, freezes the game with the mover still current, disables
      every button and highlights exactly the mover's completed lines; a
      click that completes none hands the turn to the opponent and leaves the
      game active with no complete line. */
  lemma ClickTurnOrder(g: Game, index: Idx)
    requires Invariant(g) && g.active && g.board[index] == Empty
    ensures var (g', out) := Click(g, index);
      && (out.Won? <==> HasWin(Play(g, index).board))
      && (out.Won? ==>
            && out.winner == g.current
            && g'.current == g.current
            && !g'.active
            && Winner(g'.board) == Some(g.current)
            && (forall i :: 0 <= i < 9 ==> !g'.enabled[i])
            && (forall i :: 0 <= i < 9 ==>
                  (g'.highlighted[i] <==> OnWinningLine(g'.board, g.current, i))))
      && (out == Placed ==>
            && g'.current == Other(g.current)
            && g'.active
            && !HasWin(g'.board))
  {
    FallbackSkippedAfterGuard(g, index);
    OnlyMoverCompletes(g, index);
    PlayKeepsMirrors(g, index);
    var b2 := Play(g, index).board;
    var w := Winner(b2);
    if w.Some? {
      var k :| 0 <= k < |Lines| && WonBy(b2, Lines[k], w.value);
      assert Complete(b2, Lines[k]);
    }
  }

  /** Every click keeps the invariant. */
  lemma ClickPreservesInvariant(g: Game, index: Idx)
    requires Invariant(g)
    ensures Invariant(Click(g, index).0)
  {
    if g.active && g.board[index] == Empty {
      FallbackSkippedAfterGuard(g, index);
      PlayKeepsMirrors(g, index);
      ClickTurnOrder(g, index);
    }
  }

  /** toggle_player applied twice changes nothing. */
  lemma ToggleInvolution(g: Game)
    ensures Toggle(Toggle(g)) == g
  {
    OtherInvolution(g.current);
  }

  /** A position in which X holds 0, 5 and 6, placed in that order, O holds
      1, 2 and 3, and X is to move. */
  function RollingWindowPosition(): (g: Game)
    ensures WellFormed(g) && g.active && g.current == X
  {
    var h: map<Player, seq<Idx>> := map[X := [0, 5, 6], O := [1, 2, 3]];
    assert forall p: Player :: p in h by {
      forall p: Player ensures p in h { if p == X { } else { } }
    }
    Game([Mark(X), Mark(O), Mark(O), Mark(O), Empty, Mark(X), Mark(X), Empty, Empty],
         [false, false, false, false, true, false, false, true, true],
         seq(9, _ => false), X, true, h)
  }

  lemma RollingWindowPositionInvariant()
    ensures Invariant(RollingWindowPosition())
  {
    var g := RollingWindowPosition();
    var b := g.board;
    forall i | 0 <= i < 9
      ensures (b[i] == Mark(X) <==> i in g.history[X]) && (b[i] == Mark(O) <==> i in g.history[O])
      ensures g.enabled[i] <==> b[i] == Empty
    {
      if i == 0 { } else if i == 1 { } else if i == 2 { } else if i == 3 { }
      else if i == 4 { } else if i == 5 { } else if i == 6 { } else if i == 7 { } else { }
    }
    assert Mirrors(b, g.history[X], X);
    assert Mirrors(b, g.history[O], O);
    forall k | 0 <= k < |Lines| ensures !Complete(b, Lines[k]) {
      if k == 0 { } else if k == 1 { } else if k == 2 { } else if k == 3 { }
      else if k == 4 { } else if k == 5 { } else if k == 6 { } else { }
    }
  }

  /** The rolling window at work: from that position X's fourth click, on 4,
      first erases X's oldest mark at 0, completes no line and hands the turn
      to O. */
  lemma RollingWindowExample()
    ensures var (g', out) := Click(RollingWindowPosition(), 4);
      && out == Placed
      && g'.board == [Empty, Mark(O), Mark(O), Mark(O), Mark(X), Mark(X), Mark(X), Empty, Empty]
      && g'.history[X] == [5, 6, 4] && g'.history[O] == [1, 2, 3]
      && g'.current == O
  {
    var g := RollingWindowPosition();
    RollingWindowPositionInvariant();
    ClickFrame(g, 4);
    ClickTurnOrder(g, 4);
    var b' := [Empty, Mark(O), Mark(O), Mark(O), Mark(X), Mark(X), Mark(X), Empty, Empty];
    assert Play(g, 4).board == b';
    forall k | 0 <= k < |Lines| ensures !Complete(b', Lines[k]) {
      if k == 0 { } else if k == 1 { } else if k == 2 { } else if k == 3 { }
      else if k == 4 { } else if k == 5 { } else if k == 6 { } else { }
    }
  }

  /** A position in which X holds 0 and 1, O holds 3 and 4, and X is to move. */
  function TopRowPosition(): (g: Game)
    ensures WellFormed(g) && g.active && g.current == X
  {
    var h: map<Player, seq<Idx>> := map[X := [0, 1], O := [3, 4]];
    assert forall p: Player :: p in h by {
      forall p: Player ensures p in h { if p == X { } else { } }
    }
    Game([Mark(X), Mark(X), Empty, Mark(O), Mark(O), Empty, Empty, Empty, Empty],
         [false, false, true, false, false, true, true, true, true],
         seq(9, _ => false), X, true, h)
  }

  lemma TopRowPositionInvariant()
    ensures Invariant(TopRowPosition())
  {
    var g := TopRowPosition();
    var b := g.board;
    forall i | 0 <= i < 9
      ensures (b[i] == Mark(X) <==> i in g.history[X]) && (b[i] == Mark(O) <==> i in g.history[O])
      ensures g.enabled[i] <==> b[i] == Empty
    {
      if i == 0 { } else if i == 1 { } else if i == 2 { } else if i == 3 { }
      else if i == 4 { } else if i == 5 { } else if i == 6 { } else if i == 7 { } else { }
    }
    assert Mirrors(b, g.history[X], X);
    assert Mirrors(b, g.history[O], O);
    forall k | 0 <= k < |Lines| ensures !Complete(b, Lines[k]) {
      if k == 0 { } else if k == 1 { } else if k == 2 { } else if k == 3 { }
      else if k == 4 { } else if k == 5 { } else if k == 6 { } else { }
    }
  }

  /** From that position X's click on 2 completes the top row: X wins, X
      stays current, the game is over and every button is disabled. */
  lemma TopRowWinExample()
    ensures var (g', out) := Click(TopRowPosition(), 2);
      && out == Won(X)
      && g'.current == X && !g'.active
      && g'.enabled == seq(9, _ => false)
  {
    var g := TopRowPosition();
    TopRowPositionInvariant();
    var b' := [Mark(X), Mark(X), Mark(X), Mark(O), Mark(O), Empty, Empty, Empty, Empty];
    assert Play(g, 2).board == b';
    assert WonBy(b', Lines[0], X) && Complete(b', Lines[0]);
    ClickTurnOrder(g, 2);
    var g' := Click(g, 2).0;
    assert g'.enabled == seq(9, _ => false);
  }
}
