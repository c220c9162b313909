/** Worked examples: the size-13 scenario with PYTHON, JAVA and RUST, and
    the empty candidate list. */
module Scenarios {
  import opened Grids
  import opened Placement
  import opened Search
  import opened Layout
  import opened Numbering

  /** Sorting `[x] + s` inserts `x` into the sorted `s`. */
  lemma SortCons(x: WordEntry, s: seq<WordEntry>)
    ensures SortByLength([x] + s) == InsertByLength(x, SortByLength(s))
  {
    assert ([x] + s)[0] == x && ([x] + s)[1..] == s;
  }

  /** An entry at least as long as the head goes in front. */
  lemma InsertInFront(x: WordEntry, t: seq<WordEntry>)
    requires LongestFirst(t) && (t != [] ==> |x.word| >= |t[0].word|)
    ensures InsertByLength(x, t) == [x] + t
  {
  }

  /** Two words of equal length keep their order. */
  lemma SortTwoEqual(java: WordEntry, rust: WordEntry)
    requires |java.word| == |rust.word|
    ensures SortByLength([java, rust]) == [java, rust]
  {
    SortCons(rust, []);
    InsertInFront(rust, []);
    SortCons(java, [rust]);
    InsertInFront(java, [rust]);
  }

  /** Sorting keeps the six-letter word first and the two four-letter words
      in their arrival order. */
  lemma SortScenario(python: WordEntry, java: WordEntry, rust: WordEntry)
    requires |python.word| == 6 && |java.word| == 4 && |rust.word| == 4
    ensures SortByLength([python, java, rust]) == [python, java, rust]
  {
    SortTwoEqual(java, rust);
    SortCons(python, [java, rust]);
    InsertInFront(python, [java, rust]);
  }

  /** The grid right after seeding a six-letter word on a size-13 grid. */
  function SeedGrid(python: WordEntry): (g: Grid)
    requires |python.word| == 6
    ensures WellFormed(g) && |g| == 13
    ensures forall p :: InBounds(g, p) && !OnPath(Pos(6, 3), Across, 0, 6, p) ==> Letter(g, p) == None
    ensures forall i :: 0 <= i < 6 ==> Letter(g, Pos(6, 3 + i)) == Some(python.word[i])
  {
    var g0 := EmptyGrid(13);
    assert forall i :: 0 <= i < 6 ==> Target(Pos(6, 3), Across, i) == Pos(6, 3 + i);
    PlaceWord(g0, python.word, Pos(6, 3), Across)
  }

  /** A cell off row 6 of the seeded grid is empty. */
  lemma OffRowSixEmpty(python: WordEntry, p: Pos)
    requires |python.word| == 6 && p.row != 6
    ensures !Occupied(SeedGrid(python), p)
  {
  }

  /** With size 13 the seeding step puts PYTHON across at row 6, column
      (13 - 6) / 2 = 3, on the otherwise empty grid. */
  lemma PythonSeeded(python: WordEntry)
    requires python.word == "PYTHON"
    ensures SeedPuzzle(python, 13) == Puzzle(SeedGrid(python), [PlacedWord(python, 6, 3, Across)])
  {
    assert Seed(python, 13) == PlacedWord(python, 6, 3, Across);
    SeedFitsIff(python, 13);
  }

  /** No letter of PYTHON occurs in JAVA. */
  lemma NoCommonLetter(i: int, j: int)
    requires 0 <= i < 6 && 0 <= j < 4
    ensures "PYTHON"[i] != "JAVA"[j]
  {
  }

  /** JAVA shares no letter with PYTHON, so the crossing search drops it. */
  lemma JavaDropped(python: WordEntry, java: WordEntry)
    requires python.word == "PYTHON" && java.word == "JAVA"
    ensures TryPlaceWord(SeedGrid(python), [PlacedWord(python, 6, 3, Across)], java).placed.None?
  {
    var placed := [PlacedWord(python, 6, 3, Across)];
    forall p, i, j ensures !Fits(SeedGrid(python), placed, java, Crossing(p, i, j)) {
      if p == 0 && 0 <= i < 6 && 0 <= j < 4 {
        NoCommonLetter(i, j);
      }
    }
  }

  /** RUST running down column 5 from row 3 ends on PYTHON's T. */
  lemma RustFits(python: WordEntry, rust: WordEntry)
    requires python.word == "PYTHON" && rust.word == "RUST"
    ensures CanPlace(SeedGrid(python), rust.word, Pos(3, 5), Down)
  {
    var g := SeedGrid(python);
    var w, start := rust.word, Pos(3, 5);
    assert Target(start, Down, 3) == Pos(6, 3 + 2);
    assert InsideGrid(g, w, start, Down);
    forall i | 0 <= i < 3 ensures !Occupied(g, Target(start, Down, i)) {
      OffRowSixEmpty(python, Target(start, Down, i));
    }
    forall i | 0 <= i < 3
      ensures !Occupied(g, SideBefore(Target(start, Down, i), Down)) && !Occupied(g, SideAfter(Target(start, Down, i), Down))
    {
      OffRowSixEmpty(python, SideBefore(Target(start, Down, i), Down));
      OffRowSixEmpty(python, SideAfter(Target(start, Down, i), Down));
    }
    assert Letter(g, Pos(6, 3 + 2)) == Some(python.word[2]) == Some(w[3]);
    assert AgreesWithGrid(g, w, start, Down);
    assert NoSideContact(g, w, start, Down);
    OffRowSixEmpty(python, Target(start, Down, -1));
    OffRowSixEmpty(python, Target(start, Down, 4));
  }

  /** T is the only letter PYTHON and RUST share. */
  lemma OnlyCommonLetter(i: int, j: int)
    requires 0 <= i < 6 && 0 <= j < 4 && "PYTHON"[i] == "RUST"[j]
    ensures i == 2 && j == 3
  {
  }

  /** Letter 3 of RUST on letter 2 of PYTHON is a fitting loop position. */
  lemma RustCrossingFits(python: WordEntry, rust: WordEntry)
    requires python.word == "PYTHON" && rust.word == "RUST"
    ensures Fits(SeedGrid(python), [PlacedWord(python, 6, 3, Across)], rust, Crossing(0, 2, 3))
  {
    RustFits(python, rust);
    assert Anchor(PlacedWord(python, 6, 3, Across), 2, 3, rust) == PlacedWord(rust, 3, 5, Down);
  }

  /** The crossing search places RUST down through PYTHON's T. */
  lemma RustPlaced(python: WordEntry, rust: WordEntry)
    requires python.word == "PYTHON" && rust.word == "RUST"
    ensures TryPlaceWord(SeedGrid(python), [PlacedWord(python, 6, 3, Across)], rust).placed == Some(PlacedWord(rust, 3, 5, Down))
  {
    var g := SeedGrid(python);
    var seed := PlacedWord(python, 6, 3, Across);
    RustCrossingFits(python, rust);
    var a := TryPlaceWord(g, [seed], rust);
    assert a.placed.Some?;
    var p, i, j :| FirstFit(g, [seed], rust, Crossing(p, i, j)) && a.placed.value == Anchor([seed][p], i, j, rust);
    OnlyCommonLetter(i, j);
  }

  /** After sorting and seeding, the remaining candidates are JAVA then RUST. */
  lemma GenerateUnfolds(python: WordEntry, java: WordEntry, rust: WordEntry)
    requires python.word == "PYTHON" && java.word == "JAVA" && rust.word == "RUST"
    ensures var seeded := SeedPuzzle(python, 13);
      GenerateCrossword([python, java, rust], 13) == CrossAll(seeded.grid, seeded.placed, [java, rust])
  {
    SortScenario(python, java, rust);
    assert [python, java, rust][1..] == [java, rust];
  }

  /** Dropping JAVA leaves the grid and the placed words as they were. */
  lemma JavaStep(python: WordEntry, java: WordEntry, rust: WordEntry)
    requires python.word == "PYTHON" && java.word == "JAVA" && rust.word == "RUST"
    ensures var seeded := SeedPuzzle(python, 13);
      CrossAll(seeded.grid, seeded.placed, [java, rust]) == CrossAll(seeded.grid, seeded.placed, [rust])
  {
    PythonSeeded(python);
    JavaDropped(python, java);
    assert [java, rust][1..] == [rust];
  }

  /** One crossing step on a single remaining candidate that the search places as `pw`. */
  lemma CrossOne(g: Grid, placed: seq<PlacedWord>, e: WordEntry, pw: PlacedWord)
    requires WellFormed(g) && |e.word| > 0
    requires Consistent(g, placed) && Linked(placed) && Covered(g, placed)
    requires TryPlaceWord(g, placed, e).placed == Some(pw)
    ensures CrossAll(g, placed, [e]).placed == placed + [pw]
  {
    assert [e][1..] == [];
  }

  /** Crossing RUST appends it after PYTHON. */
  lemma RustStep(python: WordEntry, rust: WordEntry)
    requires python.word == "PYTHON" && rust.word == "RUST"
    ensures var seeded := SeedPuzzle(python, 13);
      CrossAll(seeded.grid, seeded.placed, [rust]).placed
        == [PlacedWord(python, 6, 3, Across), PlacedWord(rust, 3, 5, Down)]
  {
    var seeded := SeedPuzzle(python, 13);
    PythonSeeded(python);
    RustPlaced(python, rust);
    CrossOne(seeded.grid, seeded.placed, rust, PlacedWord(rust, 3, 5, Down));
  }

  /** The whole scenario: PYTHON across at (6, 3), JAVA dropped, RUST down at
      (3, 5) crossing PYTHON at the shared T and nowhere else. */
  lemma RustScenario(python: WordEntry, java: WordEntry, rust: WordEntry)
    requires python.word == "PYTHON" && java.word == "JAVA" && rust.word == "RUST"
    ensures GenerateCrossword([python, java, rust], 13).placed ==
      [PlacedWord(python, 6, 3, Across), PlacedWord(rust, 3, 5, Down)]
  {
    GenerateUnfolds(python, java, rust);
    JavaStep(python, java, rust);
    RustStep(python, rust);
  }

  /** No candidates: the grid stays empty, nothing is placed and nothing is numbered. */
  lemma EmptyListScenario(size: nat)
    ensures GenerateCrossword([], size) == Puzzle(EmptyGrid(size), [])
    ensures NumberGrid(EmptyGrid(size), []) == Numbers(map[], map[], map[])
  {
    EmptyGridNumbersNothing(size, []);
  }
}
