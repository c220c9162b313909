/** The first-fit crossing search (`try_place_word`): a new word is laid
    perpendicular across a letter it shares with an already placed word. */
module Search {
  import opened Grids
  import opened Placement

  /** A position of the search's three nested loops: placed word `p`, its
      letter `i`, and the candidate's letter `j`. */
  datatype Crossing = Crossing(p: int, i: int, j: int)

  /** Loop order: placed words oldest first, then `i`, then `j`. */
  predicate Precedes(a: Crossing, b: Crossing) {
    || a.p < b.p
    || (a.p == b.p && a.i < b.i)
    || (a.p == b.p && a.i == b.i && a.j < b.j)
  }

  /** The placement that puts letter `j` of `e` on letter `i` of `pw`,
      running perpendicular to `pw`. */
  function Anchor(pw: PlacedWord, i: int, j: int, e: WordEntry): (a: PlacedWord)
    ensures a.entry == e && a.dir != pw.dir
    ensures a.Cell(j) == pw.Cell(i)
  {
    if pw.dir == Across then PlacedWord(e, pw.row - j, pw.col + i, Down)
    else PlacedWord(e, pw.row + i, pw.col - j, Across)
  }

  /** Those two facts pin the anchor down: any placement of `e` across
      `pw`'s orientation that puts letter `j` on letter `i` is the anchor. */
  lemma AnchorIsDetermined(pw: PlacedWord, i: int, j: int, e: WordEntry, b: PlacedWord)
    requires b.entry == e && b.dir != pw.dir && b.Cell(j) == pw.Cell(i)
    ensures b == Anchor(pw, i, j, e)
  {
  }

  /** Two placed words of opposite orientation that meet at a cell holding
      the same letter in both. */
  predicate Crosses(a: PlacedWord, b: PlacedWord, i: int, j: int) {
    && a.dir != b.dir
    && 0 <= i < |a.entry.word|
    && 0 <= j < |b.entry.word|
    && a.Cell(i) == b.Cell(j)
    && a.entry.word[i] == b.entry.word[j]
  }

  /** Loop position `c` names matching letters and its anchor passes the validator. */
  predicate Fits(g: Grid, placed: seq<PlacedWord>, e: WordEntry, c: Crossing)
    requires WellFormed(g)
  {
    && 0 <= c.p < |placed|
    && 0 <= c.i < |placed[c.p].entry.word|
    && 0 <= c.j < |e.word|
    && placed[c.p].entry.word[c.i] == e.word[c.j]
    && (var a := Anchor(placed[c.p], c.i, c.j, e);
        CanPlace(g, e.word, a.Start(), a.dir))
  }

  /** `c` fits and no loop position before it does. */
  ghost predicate FirstFit(g: Grid, placed: seq<PlacedWord>, e: WordEntry, c: Crossing)
    requires WellFormed(g)
  {
    && Fits(g, placed, e, c)
    && forall p, i, j :: Precedes(Crossing(p, i, j), c) ==> !Fits(g, placed, e, Crossing(p, i, j))
  }

  /** The anchor of a fitting loop position crosses the placed word at the
      matching letters. */
  lemma FitsCrosses(g: Grid, placed: seq<PlacedWord>, e: WordEntry, c: Crossing)
    requires WellFormed(g) && Fits(g, placed, e, c)
    ensures Crosses(placed[c.p], Anchor(placed[c.p], c.i, c.j, e), c.i, c.j)
  {
  }

  /** Innermost loop: the candidate's letters `j, j + 1, ...`. */
  function ScanCandidate(g: Grid, placed: seq<PlacedWord>, e: WordEntry, p: int, i: int, j: int): (r: Option<Crossing>)
    requires WellFormed(g) && 0 <= p < |placed| && 0 <= i < |placed[p].entry.word| && 0 <= j <= |e.word|
    ensures r.Some? ==>
      && r.value.p == p && r.value.i == i && j <= r.value.j
      && Fits(g, placed, e, r.value)
      && forall j' :: j <= j' < r.value.j ==> !Fits(g, placed, e, Crossing(p, i, j'))
    ensures r.None? ==> forall j' :: j <= j' ==> !Fits(g, placed, e, Crossing(p, i, j'))
    decreases |e.word| - j
  {
    if j == |e.word| then None
    else if Fits(g, placed, e, Crossing(p, i, j)) then Some(Crossing(p, i, j))
    else ScanCandidate(g, placed, e, p, i, j + 1)
  }

  /** Middle loop: letters `i, i + 1, ...` of placed word `p`. */
  function ScanLetters(g: Grid, placed: seq<PlacedWord>, e: WordEntry, p: int, i: int): (r: Option<Crossing>)
    requires WellFormed(g) && 0 <= p < |placed| && 0 <= i <= |placed[p].entry.word|
    ensures r.Some? ==>
      && r.value.p == p && i <= r.value.i
      && Fits(g, placed, e, r.value)
      && forall i', j' :: i <= i' && Precedes(Crossing(p, i', j'), r.value) ==> !Fits(g, placed, e, Crossing(p, i', j'))
    ensures r.None? ==> forall i', j' :: i <= i' ==> !Fits(g, placed, e, Crossing(p, i', j'))
    decreases |placed[p].entry.word| - i
  {
    if i == |placed[p].entry.word| then None
    else
      match ScanCandidate(g, placed, e, p, i, 0)
      case Some(c) => Some(c)
      case None => ScanLetters(g, placed, e, p, i + 1)
  }

  /** Outer loop: placed words `p, p + 1, ...`. */
  function ScanPlaced(g: Grid, placed: seq<PlacedWord>, e: WordEntry, p: int): (r: Option<Crossing>)
    requires WellFormed(g) && 0 <= p <= |placed|
    ensures r.Some? ==>
      && p <= r.value.p
      && Fits(g, placed, e, r.value)
      && forall p', i', j' :: p <= p' && Precedes(Crossing(p', i', j'), r.value) ==> !Fits(g, placed, e, Crossing(p', i', j'))
    ensures r.None? ==> forall p', i', j' :: p <= p' ==> !Fits(g, placed, e, Crossing(p', i', j'))
    decreases |placed| - p
  {
    if p == |placed| then None
    else
      match ScanLetters(g, placed, e, p, 0)
      case Some(c) => Some(c)
      case None => ScanPlaced(g, placed, e, p + 1)
  }

  /** The result of a crossing attempt: the placement made, if any, and the grid after it. */
  datatype Attempt = Attempt(placed: Option<PlacedWord>, grid: Grid)

  /** try_place_word: commits the first fitting crossing in loop order, or
      drops the word and leaves the grid as it was. */
  function TryPlaceWord(g: Grid, placed: seq<PlacedWord>, e: WordEntry): (r: Attempt)
    requires WellFormed(g) && |e.word| > 0
    ensures WellFormed(r.grid) && |r.grid| == |g|
    ensures r.placed.None? <==> forall p, i, j :: !Fits(g, placed, e, Crossing(p, i, j))
    ensures r.placed.None? ==> r.grid == g
    ensures r.placed.Some? ==>
      exists p, i, j ::
        && FirstFit(g, placed, e, Crossing(p, i, j))
        && r.placed.value == Anchor(placed[p], i, j, e)
        && Crosses(placed[p], r.placed.value, i, j)
    ensures r.placed.Some? ==>
      var pw := r.placed.value;
      && pw.entry == e
      && CanPlace(g, e.word, pw.Start(), pw.dir)
      && r.grid == PlaceWord(g, e.word, pw.Start(), pw.dir)
      && Spells(r.grid, pw)
  {
    match ScanPlaced(g, placed, e, 0)
    case None => Attempt(None, g)
    case Some(c) =>
      var pw := Anchor(placed[c.p], c.i, c.j, e);
      FitsCrosses(g, placed, e, c);
      assert FirstFit(g, placed, e, Crossing(c.p, c.i, c.j));
      Attempt(Some(pw), PlaceWord(g, e.word, pw.Start(), pw.dir))
  }
}
