/** The 3x3 board of the rolling-window tic-tac-toe widget: the two players, the
    cell values shown as button texts, the eight fixed lines, the winner scan of
    check_winner and the line selection of highlight_winner. Everything here
    only reads a board. */
module Board {

  datatype Option<T> = None | Some(value: T)

  /** The two symbols a button can show besides the empty text. */
  datatype Player = X | O

  /** A button's text: "" (Empty), "X" or "O". */
  datatype Cell = Empty | Mark(player: Player)

  /** The opponent of `p`: the conditional expression of toggle_player. */
  function Other(p: Player): (q: Player)
    ensures q != p
  {
    if p == X then O else X
  }

  /** Toggling twice gives back the player one started from. */
  lemma OtherInvolution(p: Player)
    ensures Other(Other(p)) == p
  {
  }

  /** A button index, row * 3 + col. */
  type Idx = i: int | 0 <= i < 9

  /** Three button indices that win when they show the same mark. */
  type Line = (Idx, Idx, Idx)

  /** The line table of check_winner and highlight_winner: three rows, three
      columns, two diagonals, in the source's order. */
  const Lines: seq<Line> := [
    (0, 1, 2),
    (3, 4, 5),
    (6, 7, 8),
    (0, 3, 6),
    (1, 4, 7),
    (2, 5, 8),
    (0, 4, 8),
    (2, 4, 6)
  ]

  /** Every button is marked: the condition `all(b.text() for b in buttons)`. */
  predicate Full(b: seq<Cell>) {
    forall i :: 0 <= i < |b| ==> b[i] != Empty
  }

  /** The first cell of `l` is marked and all three cells agree. */
  predicate Complete(b: seq<Cell>, l: Line)
    requires |b| == 9
  {
    b[l.0] != Empty && b[l.0] == b[l.1] && b[l.1] == b[l.2]
  }

  /** All three cells of `l` show `p`'s mark. */
  predicate WonBy(b: seq<Cell>, l: Line, p: Player)
    requires |b| == 9
  {
    b[l.0] == Mark(p) && b[l.1] == Mark(p) && b[l.2] == Mark(p)
  }

  predicate InLine(l: Line, i: int) {
    i == l.0 || i == l.1 || i == l.2
  }

  /** Some line of the table is complete. */
  ghost predicate HasWin(b: seq<Cell>)
    requires |b| == 9
  {
    exists k :: 0 <= k < |Lines| && Complete(b, Lines[k])
  }

  /** Cell `i` lies on a line that `p` has completed. */
  ghost predicate OnWinningLine(b: seq<Cell>, p: Player, i: int)
    requires |b| == 9
  {
    exists k :: 0 <= k < |Lines| && WonBy(b, Lines[k], p) && InLine(Lines[k], i)
  }

  /** The scan of check_winner from line `k` on: the symbol of the first
      complete line, or None when no line from `k` on is complete. */
  function ScanFrom(b: seq<Cell>, k: nat): (r: Option<Player>)
    requires |b| == 9 && k <= |Lines|
    ensures r.Some? <==> exists j :: k <= j < |Lines| && Complete(b, Lines[j])
    ensures r.Some? ==> exists j :: k <= j < |Lines| && WonBy(b, Lines[j], r.value)
    ensures r.Some? ==>
      exists j :: k <= j < |Lines| && WonBy(b, Lines[j], r.value) &&
        forall j' :: k <= j' < j ==> !Complete(b, Lines[j'])
    decreases |Lines| - k
  {
    if k == |Lines| then None
    else if Complete(b, Lines[k]) then Some(b[Lines[k].0].player)
    else ScanFrom(b, k + 1)
  }

  /** What check_winner returns: the mark of the first complete line, if any. */
  function Winner(b: seq<Cell>): (r: Option<Player>)
    requires |b| == 9
    ensures r.Some? <==> HasWin(b)
    ensures r.Some? ==> exists k :: 0 <= k < |Lines| && WonBy(b, Lines[k], r.value)
    ensures r.None? ==> forall k :: 0 <= k < |Lines| ==> !Complete(b, Lines[k])
  {
    ScanFrom(b, 0)
  }

  /** The highlight flags after the loop of highlight_winner has visited the
      first `n` lines: each line that `w` has completed gets its three cells
      highlighted, and no flag is ever cleared. */
  function Highlighted(h: seq<bool>, b: seq<Cell>, w: Player, n: nat): (r: seq<bool>)
    requires |h| == 9 && |b| == 9 && n <= |Lines|
    ensures |r| == 9
    ensures forall i :: 0 <= i < 9 ==>
      (r[i] <==> h[i] || exists k :: 0 <= k < n && WonBy(b, Lines[k], w) && InLine(Lines[k], i))
  {
    if n == 0 then h
    else
      var r := Highlighted(h, b, w, n - 1);
      var l := Lines[n - 1];
      if WonBy(b, l, w) then r[l.0 := true][l.1 := true][l.2 := true] else r
  }
}
