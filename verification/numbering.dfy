/** The numbering pass (`number_grid`): a row-major scan of the finished grid
    that numbers every cell starting an across or down answer and binds
    each number to the clue of the placed word anchored there. */
module Numbering {
  import opened Grids
  import opened Placement

  /** A letter with no letter to its left and a letter to its right: the
      cell holds a letter, it is in the first column or its left neighbour is
      empty, and there is a right neighbour holding a letter. */
  predicate StartsAcross(g: Grid, p: Pos): (ok: bool)
    requires WellFormed(g)
    ensures ok <==>
      && InBounds(g, p) && g[p.row][p.col].Some?
      && (p.col == 0 || g[p.row][p.col - 1].None?)
      && p.col + 1 < |g| && g[p.row][p.col + 1].Some?
  {
    Occupied(g, p) && !Occupied(g, Pos(p.row, p.col - 1)) && Occupied(g, Pos(p.row, p.col + 1))
  }

  /** A letter with no letter above it and a letter below it: the cell holds
      a letter, it is in the first row or the cell above is empty, and there
      is a cell below holding a letter. */
  predicate StartsDown(g: Grid, p: Pos): (ok: bool)
    requires WellFormed(g)
    ensures ok <==>
      && InBounds(g, p) && g[p.row][p.col].Some?
      && (p.row == 0 || g[p.row - 1][p.col].None?)
      && p.row + 1 < |g| && g[p.row + 1][p.col].Some?
  {
    Occupied(g, p) && !Occupied(g, Pos(p.row - 1, p.col)) && Occupied(g, Pos(p.row + 1, p.col))
  }

  predicate IsStart(g: Grid, p: Pos)
    requires WellFormed(g)
  {
    StartsAcross(g, p) || StartsDown(g, p)
  }

  /** `a` comes before `b` in row-major order. */
  predicate RowMajorLess(a: Pos, b: Pos) {
    a.row < b.row || (a.row == b.row && a.col < b.col)
  }

  predicate AnchoredAt(pw: PlacedWord, d: Direction, p: Pos) {
    pw.dir == d && pw.row == p.row && pw.col == p.col
  }

  /** The clue lookup's linear scan over placed words `from, from + 1, ...`:
      the index of the first word anchored at `p` in direction `d`. */
  function FirstAnchored(placed: seq<PlacedWord>, d: Direction, p: Pos, from: int): (r: Option<int>)
    requires 0 <= from <= |placed|
    ensures r.Some? ==>
      && from <= r.value < |placed|
      && AnchoredAt(placed[r.value], d, p)
      && forall m :: from <= m < r.value ==> !AnchoredAt(placed[m], d, p)
    ensures r.None? ==> forall m :: from <= m < |placed| ==> !AnchoredAt(placed[m], d, p)
    decreases |placed| - from
  {
    if from == |placed| then None
    else if AnchoredAt(placed[from], d, p) then Some(from)
    else FirstAnchored(placed, d, p, from + 1)
  }

  /** The clue of the first placed word anchored at `p` in direction `d`, if any. */
  function ClueAt(placed: seq<PlacedWord>, d: Direction, p: Pos): (r: Option<string>)
    ensures r.None? <==> forall m :: 0 <= m < |placed| ==> !AnchoredAt(placed[m], d, p)
    ensures r.Some? ==> exists m ::
      && 0 <= m < |placed| && AnchoredAt(placed[m], d, p) && r.value == placed[m].entry.clue
      && forall m' :: 0 <= m' < m ==> !AnchoredAt(placed[m'], d, p)
  {
    match FirstAnchored(placed, d, p, 0)
    case None => None
    case Some(m) => Some(placed[m].entry.clue)
  }

  /** The three maps `number_grid` returns. */
  datatype Numbers = Numbers(numbers: map<int, Pos>, across: map<int, string>, down: map<int, string>)

  /** The scan's state: the maps built so far and the next number to hand out. */
  datatype Scan = Scan(numbers: map<int, Pos>, across: map<int, string>, down: map<int, string>, next: int)

  /** `p` starts an answer running in direction `d`. */
  predicate StartsIn(g: Grid, d: Direction, p: Pos)
    requires WellFormed(g)
  {
    if d == Across then StartsAcross(g, p) else StartsDown(g, p)
  }

  /** A clue map binds exactly the numbers of cells starting an answer in
      direction `d` that some placed word is anchored at, each to the clue of
      the first such word. */
  ghost predicate BindsClues(g: Grid, placed: seq<PlacedWord>, d: Direction, numbers: map<int, Pos>, clues: map<int, string>)
    requires WellFormed(g)
  {
    && (forall k :: k in clues ==>
          k in numbers && StartsIn(g, d, numbers[k]) && ClueAt(placed, d, numbers[k]) == Some(clues[k]))
    && (forall k :: k in numbers && StartsIn(g, d, numbers[k]) && ClueAt(placed, d, numbers[k]).Some? ==>
          k in clues)
  }

  /** The numbers handed out so far are 1, ..., next - 1, each on a start cell
      before `at`, in increasing row-major order. */
  ghost predicate NumberedInOrder(g: Grid, at: Pos, numbers: map<int, Pos>, next: int)
    requires WellFormed(g)
  {
    && next >= 1
    && |numbers| == next - 1
    && (forall k :: k in numbers <==> 1 <= k < next)
    && (forall k :: k in numbers ==> IsStart(g, numbers[k]) && RowMajorLess(numbers[k], at))
    && (forall k, k' :: k in numbers && k' in numbers && k < k' ==> RowMajorLess(numbers[k], numbers[k']))
  }

  /** Some number is on cell `q`. */
  ghost predicate HasNumber(numbers: map<int, Pos>, q: Pos) {
    exists k :: k in numbers && numbers[k] == q
  }

  /** Every start cell before `at` has a number. */
  ghost predicate NumberedAllBefore(g: Grid, at: Pos, numbers: map<int, Pos>)
    requires WellFormed(g)
  {
    forall q :: InBounds(g, q) && RowMajorLess(q, at) && IsStart(g, q) ==> HasNumber(numbers, q)
  }

  /** The scan has numbered exactly the start cells before `at`, in order,
      with 1, 2, ..., and bound their clues. */
  ghost predicate ScannedUpTo(g: Grid, placed: seq<PlacedWord>, at: Pos, s: Scan)
    requires WellFormed(g)
  {
    && NumberedInOrder(g, at, s.numbers, s.next)
    && NumberedAllBefore(g, at, s.numbers)
    && BindsClues(g, placed, Across, s.numbers, s.across)
    && BindsClues(g, placed, Down, s.numbers, s.down)
  }

  /** Binding the fresh number `key` at a start cell of direction `d` where
      a placed word is anchored keeps the clue map exact. */
  lemma BindNewKey(g: Grid, placed: seq<PlacedWord>, d: Direction, at: Pos, numbers: map<int, Pos>, key: int, clues: map<int, string>)
    requires WellFormed(g) && BindsClues(g, placed, d, numbers, clues) && key !in numbers
    requires StartsIn(g, d, at) && ClueAt(placed, d, at).Some?
    ensures BindsClues(g, placed, d, numbers[key := at], clues[key := ClueAt(placed, d, at).value])
  {
    var numbers', clues' := numbers[key := at], clues[key := ClueAt(placed, d, at).value];
    forall k | k in clues'
      ensures k in numbers' && StartsIn(g, d, numbers'[k]) && ClueAt(placed, d, numbers'[k]) == Some(clues'[k])
    {
      if k != key {
        assert k in clues && clues'[k] == clues[k];
      }
    }
  }

  /** Numbering a cell that binds no clue in direction `d` keeps the clue
      map exact. */
  lemma BindNothing(g: Grid, placed: seq<PlacedWord>, d: Direction, at: Pos, numbers: map<int, Pos>, key: int, clues: map<int, string>)
    requires WellFormed(g) && BindsClues(g, placed, d, numbers, clues) && key !in numbers
    requires !StartsIn(g, d, at) || ClueAt(placed, d, at).None?
    ensures BindsClues(g, placed, d, numbers[key := at], clues)
  {
    var numbers' := numbers[key := at];
    assert key !in clues;
    forall k | k in numbers' && StartsIn(g, d, numbers'[k]) && ClueAt(placed, d, numbers'[k]).Some?
      ensures k in clues
    {
      if k != key {
        assert k in numbers;
      }
    }
  }

  /** The clue map after visiting start cell `at` with the fresh number
      `key`: it still binds exactly the numbered start cells of direction `d`
      that some placed word is anchored at, each to the first such clue. */
  function BindAt(g: Grid, placed: seq<PlacedWord>, d: Direction, at: Pos, numbers: map<int, Pos>, key: int, clues: map<int, string>): (c: map<int, string>)
    requires WellFormed(g) && BindsClues(g, placed, d, numbers, clues) && key !in numbers
    ensures BindsClues(g, placed, d, numbers[key := at], c)
  {
    var clue := ClueAt(placed, d, at);
    if StartsIn(g, d, at) && clue.Some? then
      BindNewKey(g, placed, d, at, numbers, key, clues);
      clues[key := clue.value]
    else
      BindNothing(g, placed, d, at, numbers, key, clues);
      clues
  }

  lemma VisitKeepsOrder(g: Grid, at: Pos, numbers: map<int, Pos>, next: int)
    requires WellFormed(g) && InBounds(g, at) && IsStart(g, at) && NumberedInOrder(g, at, numbers, next)
    ensures NumberedInOrder(g, Pos(at.row, at.col + 1), numbers[next := at], next + 1)
  {
    assert next !in numbers;
  }

  lemma VisitKeepsAllBefore(g: Grid, at: Pos, numbers: map<int, Pos>, next: int)
    requires WellFormed(g) && InBounds(g, at) && NumberedAllBefore(g, at, numbers) && next !in numbers
    ensures IsStart(g, at) ==> NumberedAllBefore(g, Pos(at.row, at.col + 1), numbers[next := at])
    ensures !IsStart(g, at) ==> NumberedAllBefore(g, Pos(at.row, at.col + 1), numbers)
  {
    var at' := Pos(at.row, at.col + 1);
    if IsStart(g, at) {
      var numbers' := numbers[next := at];
      forall q | InBounds(g, q) && RowMajorLess(q, at') && IsStart(g, q) ensures HasNumber(numbers', q) {
        if q == at {
          assert numbers'[next] == q;
        } else {
          assert HasNumber(numbers, q);
          var k :| k in numbers && numbers[k] == q;
          assert numbers'[k] == q;
        }
      }
    } else {
      forall q | InBounds(g, q) && RowMajorLess(q, at') && IsStart(g, q) ensures HasNumber(numbers, q) {
        assert q != at;
      }
    }
  }

  /** One cell of the scan: a start cell gets the next number, its across
      clue and its down clue, and the counter moves on once; the scan
      invariant then holds up to the next cell. */
  function Visit(g: Grid, placed: seq<PlacedWord>, at: Pos, s: Scan): (s': Scan)
    requires WellFormed(g) && InBounds(g, at) && ScannedUpTo(g, placed, at, s)
    ensures s'.next == s.next + 1 <==> IsStart(g, at)
    ensures ScannedUpTo(g, placed, Pos(at.row, at.col + 1), s')
  {
    assert s.next !in s.numbers;
    VisitKeepsAllBefore(g, at, s.numbers, s.next);
    if !IsStart(g, at) then s
    else
      VisitKeepsOrder(g, at, s.numbers, s.next);
      Scan(
        s.numbers[s.next := at],
        BindAt(g, placed, Across, at, s.numbers, s.next, s.across),
        BindAt(g, placed, Down, at, s.numbers, s.next, s.down),
        s.next + 1)
  }

  /** The scan from cell `at` to the end of the grid, row by row. */
  function NumberFrom(g: Grid, placed: seq<PlacedWord>, at: Pos, s: Scan): (r: Scan)
    requires WellFormed(g) && 0 <= at.row <= |g| && 0 <= at.col <= |g|
    requires at.row < |g| || at.col == 0
    requires ScannedUpTo(g, placed, at, s)
    ensures ScannedUpTo(g, placed, Pos(|g|, 0), r)
    decreases |g| - at.row, |g| - at.col
  {
    if at.row == |g| then s
    else if at.col == |g| then
      var at' := Pos(at.row + 1, 0);
      assert ScannedUpTo(g, placed, at', s);
      NumberFrom(g, placed, at', s)
    else
      NumberFrom(g, placed, Pos(at.row, at.col + 1), Visit(g, placed, at, s))
  }

  /** number_grid. */
  function NumberGrid(g: Grid, placed: seq<PlacedWord>): (r: Numbers)
    requires WellFormed(g)
    ensures forall k :: k in r.numbers <==> 1 <= k <= |r.numbers|
    ensures forall k :: k in r.numbers ==> Occupied(g, r.numbers[k]) && IsStart(g, r.numbers[k])
    ensures forall k, k' :: k in r.numbers && k' in r.numbers && k < k' ==> RowMajorLess(r.numbers[k], r.numbers[k'])
    ensures forall q :: InBounds(g, q) && IsStart(g, q) ==> exists k :: k in r.numbers && r.numbers[k] == q
    ensures BindsClues(g, placed, Across, r.numbers, r.across)
    ensures BindsClues(g, placed, Down, r.numbers, r.down)
  {
    var s := NumberFrom(g, placed, Pos(0, 0), Scan(map[], map[], map[], 1));
    Numbers(s.numbers, s.across, s.down)
  }

  /** An empty grid (in particular the grid generated from no candidates)
      numbers nothing and binds no clues. */
  lemma EmptyGridNumbersNothing(n: nat, placed: seq<PlacedWord>)
    ensures NumberGrid(EmptyGrid(n), placed) == Numbers(map[], map[], map[])
  {
    var g := EmptyGrid(n);
    var r := NumberGrid(g, placed);
    assert forall k :: k !in r.numbers;
    assert forall k :: k !in r.across;
    assert forall k :: k !in r.down;
  }
}
