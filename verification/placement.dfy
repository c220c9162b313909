/** The placement validator (`can_place`) and the word writer (`place_word`),
    with the records they are applied to. */
module Placement {
  import opened Grids

  /** A word and its clue. The loader has already dropped empty words. */
  datatype WordEntry = WordEntry(word: string, clue: string)

  /** An entry committed to the grid at anchor (row, col) in orientation `dir`. */
  datatype PlacedWord = PlacedWord(entry: WordEntry, row: int, col: int, dir: Direction) {

    function Start(): Pos {
      Pos(row, col)
    }

    /** The cell under this word's letter `i`. */
    function Cell(i: int): Pos {
      Target(Start(), dir, i)
    }
  }

  /** The cell of letter `i` of a word anchored at `start`: `(row + i, col)`
      when running down, `(row, col + i)` when running across. */
  function Target(start: Pos, d: Direction, i: int): Pos {
    if d == Across then Pos(start.row, start.col + i) else Pos(start.row + i, start.col)
  }

  /** `p` is the cell of some letter index in `[lo, hi)` of a word anchored at `start`. */
  predicate OnPath(start: Pos, d: Direction, lo: int, hi: int, p: Pos) {
    if d == Across then p.row == start.row && start.col + lo <= p.col < start.col + hi
    else p.col == start.col && start.row + lo <= p.row < start.row + hi
  }

  /** The neighbours of `p` on either side of a word's axis: above and below
      for a word running across, left and right for one running down. */
  function SideBefore(p: Pos, d: Direction): Pos {
    if d == Across then Pos(p.row - 1, p.col) else Pos(p.row, p.col - 1)
  }

  function SideAfter(p: Pos, d: Direction): Pos {
    if d == Across then Pos(p.row + 1, p.col) else Pos(p.row, p.col + 1)
  }

  // The four conditions a legal placement meets, stated independently of the
  // order in which the validator checks them.

  /** Every letter's cell lies on the grid. */
  predicate InsideGrid(g: Grid, w: string, start: Pos, d: Direction) {
    forall i :: 0 <= i < |w| ==> InBounds(g, Target(start, d, i))
  }

  /** Every letter that lands on a filled cell lands on the same letter. */
  predicate AgreesWithGrid(g: Grid, w: string, start: Pos, d: Direction)
    requires WellFormed(g)
  {
    forall i :: 0 <= i < |w| && Occupied(g, Target(start, d, i)) ==>
      Letter(g, Target(start, d, i)) == Some(w[i])
  }

  /** Every letter that lands on an empty cell has empty neighbours on both
      sides of the word's axis, so the word never runs alongside another. */
  predicate NoSideContact(g: Grid, w: string, start: Pos, d: Direction)
    requires WellFormed(g)
  {
    forall i :: 0 <= i < |w| && InBounds(g, Target(start, d, i)) && !Occupied(g, Target(start, d, i)) ==>
      !Occupied(g, SideBefore(Target(start, d, i), d)) && !Occupied(g, SideAfter(Target(start, d, i), d))
  }

  /** The cells just before the first letter and just after the last letter,
      along the word's own axis, are empty (or off the grid). */
  predicate EndsClear(g: Grid, w: string, start: Pos, d: Direction)
    requires WellFormed(g)
  {
    !Occupied(g, Target(start, d, -1)) && !Occupied(g, Target(start, d, |w|))
  }

  /** The checks the validator's loop makes at letter index `i`: bounds, then
      letter conflict, then, on an empty cell, perpendicular adjacency. The
      contract restates them as the source's raw, edge-guarded reads. */
  function CellFits(g: Grid, w: string, start: Pos, d: Direction, i: int): (ok: bool)
    requires WellFormed(g) && 0 <= i < |w|
    ensures ok <==>
      var r, c := Target(start, d, i).row, Target(start, d, i).col;
      && 0 <= r < |g| && 0 <= c < |g|
      && (g[r][c].None? || g[r][c].value == w[i])
      && (g[r][c].None? ==>
            if d == Across then
              !(r > 0 && g[r - 1][c].Some?) && !(r < |g| - 1 && g[r + 1][c].Some?)
            else
              !(c > 0 && g[r][c - 1].Some?) && !(c < |g| - 1 && g[r][c + 1].Some?))
  {
    var t := Target(start, d, i);
    && InBounds(g, t)
    && (Letter(g, t).None? || Letter(g, t).value == w[i])
    && (Letter(g, t).None? ==> !Occupied(g, SideBefore(t, d)) && !Occupied(g, SideAfter(t, d)))
  }

  /** The validator's loop over letter indices `i, i + 1, ..., |w| - 1`. */
  function CellsFitFrom(g: Grid, w: string, start: Pos, d: Direction, i: int): (ok: bool)
    requires WellFormed(g) && 0 <= i <= |w|
    ensures ok <==> forall k :: i <= k < |w| ==> CellFits(g, w, start, d, k)
    decreases |w| - i
  {
    i == |w| || (CellFits(g, w, start, d, i) && CellsFitFrom(g, w, start, d, i + 1))
  }

  lemma CellsFitMeans(g: Grid, w: string, start: Pos, d: Direction)
    requires WellFormed(g)
    ensures (forall k :: 0 <= k < |w| ==> CellFits(g, w, start, d, k)) <==>
      InsideGrid(g, w, start, d) && AgreesWithGrid(g, w, start, d) && NoSideContact(g, w, start, d)
  {
    if forall k :: 0 <= k < |w| ==> CellFits(g, w, start, d, k) {
      forall i | 0 <= i < |w| ensures InBounds(g, Target(start, d, i)) {
        assert CellFits(g, w, start, d, i);
      }
      forall i | 0 <= i < |w| && Occupied(g, Target(start, d, i))
        ensures Letter(g, Target(start, d, i)) == Some(w[i])
      {
        assert CellFits(g, w, start, d, i);
      }
      forall i | 0 <= i < |w| && InBounds(g, Target(start, d, i)) && !Occupied(g, Target(start, d, i))
        ensures !Occupied(g, SideBefore(Target(start, d, i), d)) && !Occupied(g, SideAfter(Target(start, d, i), d))
      {
        assert CellFits(g, w, start, d, i);
      }
    }
    if InsideGrid(g, w, start, d) && AgreesWithGrid(g, w, start, d) && NoSideContact(g, w, start, d) {
      forall k | 0 <= k < |w| ensures CellFits(g, w, start, d, k) {
        assert InBounds(g, Target(start, d, k));
      }
    }
  }

  /** can_place: whether `w` may be written from `start` in direction `d`.
      The end checks are bounds-guarded reads; they never touch a cell off the
      grid because, for a non-empty word, index 0 has already put the anchor
      on the grid. */
  function CanPlace(g: Grid, w: string, start: Pos, d: Direction): (ok: bool)
    requires WellFormed(g) && |w| > 0
    ensures ok <==>
      && InsideGrid(g, w, start, d)
      && AgreesWithGrid(g, w, start, d)
      && NoSideContact(g, w, start, d)
      && EndsClear(g, w, start, d)
  {
    CellsFitMeans(g, w, start, d);
    && CellsFitFrom(g, w, start, d, 0)
    && !Occupied(g, Target(start, d, -1))
    && !Occupied(g, Target(start, d, |w|))
  }

  /** Only a word no longer than the grid's side can fit, wherever it is
      anchored: a longer word is never placed. */
  lemma FitsOnlyShortWords(g: Grid, w: string, start: Pos, d: Direction)
    requires WellFormed(g) && |w| > 0 && CanPlace(g, w, start, d)
    ensures |w| <= |g|
  {
    assert InBounds(g, Target(start, d, 0));
    assert InBounds(g, Target(start, d, |w| - 1));
  }

  /** The writer's loop over letter indices `i, i + 1, ..., |w| - 1`. */
  function PlaceFrom(g: Grid, w: string, start: Pos, d: Direction, i: int): (h: Grid)
    requires WellFormed(g) && InsideGrid(g, w, start, d) && 0 <= i <= |w|
    ensures WellFormed(h) && |h| == |g|
    ensures forall k :: i <= k < |w| ==> Letter(h, Target(start, d, k)) == Some(w[k])
    ensures forall p :: InBounds(g, p) && !OnPath(start, d, i, |w|, p) ==> Letter(h, p) == Letter(g, p)
    decreases |w| - i
  {
    if i == |w| then g
    else
      var g' := Write(g, Target(start, d, i), Some(w[i]));
      assert InsideGrid(g', w, start, d) by {
        forall k | 0 <= k < |w| ensures InBounds(g', Target(start, d, k)) {
          assert InBounds(g, Target(start, d, k));
        }
      }
      PlaceFrom(g', w, start, d, i + 1)
  }

  /** place_word: writes each letter of `w` into its cell. The caller has
      validated the placement; only the bounds part of that is needed here. */
  function PlaceWord(g: Grid, w: string, start: Pos, d: Direction): (h: Grid)
    requires WellFormed(g) && InsideGrid(g, w, start, d)
    ensures WellFormed(h) && |h| == |g|
    ensures forall i :: 0 <= i < |w| ==> Letter(h, Target(start, d, i)) == Some(w[i])
    ensures forall p :: InBounds(g, p) && !OnPath(start, d, 0, |w|, p) ==> Letter(h, p) == Letter(g, p)
  {
    PlaceFrom(g, w, start, d, 0)
  }

  /** A validated placement overwrites a filled cell only with the letter it
      already holds, so every letter already on the grid survives. */
  lemma PlaceKeepsLetters(g: Grid, w: string, start: Pos, d: Direction)
    requires WellFormed(g) && |w| > 0 && CanPlace(g, w, start, d)
    ensures forall p :: Occupied(g, p) ==> Letter(PlaceWord(g, w, start, d), p) == Letter(g, p)
  {
    var h := PlaceWord(g, w, start, d);
    forall p | Occupied(g, p) ensures Letter(h, p) == Letter(g, p) {
      if OnPath(start, d, 0, |w|, p) {
        var k := if d == Across then p.col - start.col else p.row - start.row;
        assert Target(start, d, k) == p;
      }
    }
  }

  /** The grid spells `pw`'s word along its path. */
  predicate Spells(g: Grid, pw: PlacedWord)
    requires WellFormed(g)
  {
    forall i :: 0 <= i < |pw.entry.word| ==>
      InBounds(g, pw.Cell(i)) && Letter(g, pw.Cell(i)) == Some(pw.entry.word[i])
  }

  /** The grid spells every placed word. */
  predicate Consistent(g: Grid, placed: seq<PlacedWord>)
    requires WellFormed(g)
  {
    forall k :: 0 <= k < |placed| ==> Spells(g, placed[k])
  }

  /** Committing a validated placement keeps every earlier word spelled and
      spells the new one. */
  lemma PlaceKeepsConsistent(g: Grid, placed: seq<PlacedWord>, pw: PlacedWord)
    requires WellFormed(g) && |pw.entry.word| > 0
    requires CanPlace(g, pw.entry.word, pw.Start(), pw.dir)
    requires Consistent(g, placed)
    ensures Consistent(PlaceWord(g, pw.entry.word, pw.Start(), pw.dir), placed + [pw])
  {
    var h := PlaceWord(g, pw.entry.word, pw.Start(), pw.dir);
    PlaceKeepsLetters(g, pw.entry.word, pw.Start(), pw.dir);
    forall k | 0 <= k < |placed| + 1 ensures Spells(h, (placed + [pw])[k]) {
      if k < |placed| {
        var q := placed[k];
        forall i | 0 <= i < |q.entry.word|
          ensures InBounds(h, q.Cell(i)) && Letter(h, q.Cell(i)) == Some(q.entry.word[i])
        {
          assert Spells(g, q);
          assert Occupied(g, q.Cell(i));
        }
      }
    }
  }

  /** Two words the grid spells agree on every cell they share. */
  lemma SharedCellsAgree(g: Grid, a: PlacedWord, b: PlacedWord, i: int, j: int)
    requires WellFormed(g) && Spells(g, a) && Spells(g, b)
    requires 0 <= i < |a.entry.word| && 0 <= j < |b.entry.word|
    requires a.Cell(i) == b.Cell(j)
    ensures a.entry.word[i] == b.entry.word[j]
  {
    assert Letter(g, a.Cell(i)) == Some(a.entry.word[i]);
    assert Letter(g, b.Cell(j)) == Some(b.entry.word[j]);
  }

  /** Some letter of some placed word sits on cell `p`. */
  ghost predicate OnSomeWord(placed: seq<PlacedWord>, p: Pos) {
    exists k, i :: 0 <= k < |placed| && 0 <= i < |placed[k].entry.word| && placed[k].Cell(i) == p
  }

  /** Every filled cell of the grid lies on the path of a placed word: no
      letter is written except as part of a committed placement. */
  ghost predicate Covered(g: Grid, placed: seq<PlacedWord>)
    requires WellFormed(g)
  {
    forall p :: Occupied(g, p) ==> OnSomeWord(placed, p)
  }

  /** Writing a word and recording its placement keeps every filled cell on
      some placed word. */
  lemma PlaceKeepsCovered(g: Grid, placed: seq<PlacedWord>, pw: PlacedWord)
    requires WellFormed(g) && InsideGrid(g, pw.entry.word, pw.Start(), pw.dir)
    requires Covered(g, placed)
    ensures Covered(PlaceWord(g, pw.entry.word, pw.Start(), pw.dir), placed + [pw])
  {
    var h := PlaceWord(g, pw.entry.word, pw.Start(), pw.dir);
    var s := placed + [pw];
    forall p | Occupied(h, p) ensures OnSomeWord(s, p) {
      if OnPath(pw.Start(), pw.dir, 0, |pw.entry.word|, p) {
        var i := if pw.dir == Across then p.col - pw.col else p.row - pw.row;
        assert s[|placed|].Cell(i) == p;
      } else {
        assert Occupied(g, p);
        var k, i :| 0 <= k < |placed| && 0 <= i < |placed[k].entry.word| && placed[k].Cell(i) == p;
        assert s[k].Cell(i) == p;
      }
    }
  }
}
