/** The layout orchestrator (`generate_crossword`): orders the selected
    entries longest first, seeds the first one across the middle row, then
    tries to cross each of the rest, dropping those that do not fit. */
module Layout {
  import opened Grids
  import opened Placement
  import opened Search

  // ---------------------------------------------------------------------
  // Ordering: a stable sort by word length, longest first.

  /** Longer words come first. */
  predicate LongestFirst(s: seq<WordEntry>) {
    forall a, b :: 0 <= a < b < |s| ==> |s[a].word| >= |s[b].word|
  }

  /** The entries of `s` whose word has length `n`, in their order in `s`. */
  function OfLength(s: seq<WordEntry>, n: int): seq<WordEntry> {
    if s == [] then []
    else (if |s[0].word| == n then [s[0]] else []) + OfLength(s[1..], n)
  }

  /** Filtering by length commutes with putting an entry in front. */
  lemma OfLengthCons(h: WordEntry, s: seq<WordEntry>, n: int)
    ensures OfLength([h] + s, n) == (if |h.word| == n then [h] else []) + OfLength(s, n)
  {
    assert ([h] + s)[0] == h && ([h] + s)[1..] == s;
  }

  /** An entry at least as long as the head of a longest-first sequence can
      go in front of it. */
  lemma ConsKeepsLongestFirst(h: WordEntry, s: seq<WordEntry>)
    requires LongestFirst(s) && (s != [] ==> |h.word| >= |s[0].word|)
    ensures LongestFirst([h] + s)
  {
    var r := [h] + s;
    forall a, b | 0 <= a < b < |r| ensures |r[a].word| >= |r[b].word| {
      assert r[b] == s[b - 1];
      if a == 0 {
        assert |s[0].word| >= |s[b - 1].word|;
      } else {
        assert r[a] == s[a - 1];
      }
    }
  }

  /** The step of the insertion: when `x` is shorter than the head of `t`,
      the head goes in front of `x` inserted into the tail. */
  lemma InsertStep(x: WordEntry, t: seq<WordEntry>, rest: seq<WordEntry>)
    requires LongestFirst(t) && t != [] && |x.word| < |t[0].word|
    requires LongestFirst(rest) && |rest| == |t|
    requires rest[0] == x || (|t| > 1 && rest[0] == t[1])
    requires multiset(rest) == multiset(t[1..]) + multiset{x}
    ensures LongestFirst([t[0]] + rest)
    ensures multiset([t[0]] + rest) == multiset(t) + multiset{x}
  {
    ConsKeepsLongestFirst(t[0], rest);
    calc {
      multiset([t[0]] + rest);
      multiset{t[0]} + multiset(rest);
      multiset{t[0]} + multiset(t[1..]) + multiset{x};
      { assert t == [t[0]] + t[1..]; }
      multiset(t) + multiset{x};
    }
  }

  /** Inserts `x` into a longest-first sequence ahead of every entry no longer
      than it, so it stays behind the longer ones it follows. */
  function InsertByLength(x: WordEntry, t: seq<WordEntry>): (r: seq<WordEntry>)
    requires LongestFirst(t)
    ensures |r| == |t| + 1 && (r[0] == x || (t != [] && r[0] == t[0]))
    ensures LongestFirst(r)
    ensures multiset(r) == multiset(t) + multiset{x}
  {
    if t == [] || |x.word| >= |t[0].word| then
      ConsKeepsLongestFirst(x, t);
      [x] + t
    else
      var rest := InsertByLength(x, t[1..]);
      InsertStep(x, t, rest);
      [t[0]] + rest
  }

  /** Inserting `x` puts it among the entries of its length ahead of all of
      them, and leaves the entries of every other length in order. */
  lemma {:induction false} InsertKeepsOrderOfLength(x: WordEntry, t: seq<WordEntry>, n: int)
    requires LongestFirst(t)
    ensures OfLength(InsertByLength(x, t), n) == (if |x.word| == n then [x] else []) + OfLength(t, n)
  {
    if t == [] || |x.word| >= |t[0].word| {
      OfLengthCons(x, t, n);
    } else {
      var rest := InsertByLength(x, t[1..]);
      assert InsertByLength(x, t) == [t[0]] + rest;
      InsertKeepsOrderOfLength(x, t[1..], n);
      OfLengthCons(t[0], rest, n);
      OfLengthCons(t[0], t[1..], n);
      assert [t[0]] + t[1..] == t;
      // `x` is shorter than `t[0]`, so at most one of them has length `n`.
      if |x.word| == n {
        assert OfLength(t, n) == OfLength(t[1..], n);
      } else {
        assert OfLength(rest, n) == OfLength(t[1..], n);
      }
    }
  }

  /** The source's `sort(key=len, reverse=True)`: Python's sort is stable, so
      entries of equal length keep the order they arrived in. */
  function SortByLength(s: seq<WordEntry>): (r: seq<WordEntry>)
    ensures LongestFirst(r)
    ensures multiset(r) == multiset(s)
  {
    if s == [] then []
    else
      assert s == [s[0]] + s[1..];
      InsertByLength(s[0], SortByLength(s[1..]))
  }

  /** Stability: for every length, the entries of that length appear in the
      sorted list in the order they had in `s`. Together with LongestFirst
      this determines the sorted list completely. */
  lemma {:induction false} SortIsStable(s: seq<WordEntry>, n: int)
    ensures OfLength(SortByLength(s), n) == OfLength(s, n)
  {
    if s != [] {
      SortIsStable(s[1..], n);
      InsertKeepsOrderOfLength(s[0], SortByLength(s[1..]), n);
    }
  }

  /** The first entry of the sorted list is a longest one. */
  lemma SortPutsLongestFirst(s: seq<WordEntry>)
    requires s != []
    ensures SortByLength(s) != []
    ensures forall e :: e in s ==> |e.word| <= |SortByLength(s)[0].word|
  {
    var r := SortByLength(s);
    assert |r| == |multiset(r)| == |multiset(s)| == |s|;
    forall e | e in s ensures |e.word| <= |r[0].word| {
      assert e in multiset(r);
      var k :| 0 <= k < |r| && r[k] == e;
      if k > 0 {
        assert |r[0].word| >= |r[k].word|;
      }
    }
  }

  // ---------------------------------------------------------------------
  // Generation.

  /** The grid and the placed words, in placement order. */
  datatype Puzzle = Puzzle(grid: Grid, placed: seq<PlacedWord>)

  /** Every word after the seed crosses some earlier placed word. */
  ghost predicate Linked(placed: seq<PlacedWord>) {
    forall k :: 1 <= k < |placed| ==> CrossesEarlier(placed, k)
  }

  /** Word `k` crosses some word placed before it. */
  ghost predicate CrossesEarlier(placed: seq<PlacedWord>, k: int)
    requires 0 <= k < |placed|
  {
    exists m, i, j :: 0 <= m < k && Crosses(placed[m], placed[k], i, j)
  }

  lemma AppendKeepsLinked(placed: seq<PlacedWord>, pw: PlacedWord, m: int, i: int, j: int)
    requires Linked(placed)
    requires 0 <= m < |placed| && Crosses(placed[m], pw, i, j)
    ensures Linked(placed + [pw])
  {
    var s := placed + [pw];
    forall k | 1 <= k < |s| ensures CrossesEarlier(s, k) {
      if k < |placed| {
        assert CrossesEarlier(placed, k);
        var m', i', j' :| 0 <= m' < k && Crosses(placed[m'], placed[k], i', j');
        assert s[m'] == placed[m'] && s[k] == placed[k];
        assert Crosses(s[m'], s[k], i', j');
      } else {
        assert s[m] == placed[m] && s[k] == pw;
        assert Crosses(s[m], s[k], i, j);
      }
    }
  }

  /** A successful crossing attempt keeps every placed word spelled, every
      word after the seed linked to an earlier one, and every filled cell on
      some placed word. */
  lemma CommitKeepsInvariants(g: Grid, placed: seq<PlacedWord>, e: WordEntry)
    requires WellFormed(g) && |e.word| > 0
    requires Consistent(g, placed) && Linked(placed) && Covered(g, placed)
    requires TryPlaceWord(g, placed, e).placed.Some?
    ensures var a := TryPlaceWord(g, placed, e);
      && Consistent(a.grid, placed + [a.placed.value])
      && Linked(placed + [a.placed.value])
      && Covered(a.grid, placed + [a.placed.value])
  {
    var a := TryPlaceWord(g, placed, e);
    var pw := a.placed.value;
    var m, i, j :| FirstFit(g, placed, e, Crossing(m, i, j))
      && pw == Anchor(placed[m], i, j, e) && Crosses(placed[m], pw, i, j);
    PlaceKeepsConsistent(g, placed, pw);
    PlaceKeepsCovered(g, placed, pw);
    AppendKeepsLinked(placed, pw, m, i, j);
  }

  predicate NonEmptyWords(s: seq<WordEntry>) {
    forall k :: 0 <= k < |s| ==> |s[k].word| > 0
  }

  lemma NonEmptyTail(s: seq<WordEntry>)
    requires s != [] && NonEmptyWords(s)
    ensures NonEmptyWords(s[1..])
  {
    forall k | 0 <= k < |s| - 1 ensures |s[1..][k].word| > 0 {
      assert s[1..][k] == s[k + 1];
    }
  }

  /** The entries of a sequence of placements. */
  function Entries(ps: seq<PlacedWord>): (es: seq<WordEntry>)
    ensures |es| == |ps| && forall k :: 0 <= k < |ps| ==> es[k] == ps[k].entry
  {
    seq(|ps|, k requires 0 <= k < |ps| => ps[k].entry)
  }

  /** The entries from position `n` on are the entry at `n` followed by the rest. */
  lemma EntriesFrom(ps: seq<PlacedWord>, n: int)
    requires 0 <= n < |ps|
    ensures Entries(ps[n..]) == [ps[n].entry] + Entries(ps[n + 1..])
  {
    assert ps[n..] == [ps[n]] + ps[n + 1..];
  }

  predicate Increasing(idx: seq<int>) {
    forall a, b :: 0 <= a < b < |idx| ==> idx[a] < idx[b]
  }

  /** `a` is `rest` with some entries left out: each element of `a` is taken
      from its own position of `rest`, and in the order of `rest`. */
  ghost predicate PickedInOrder(a: seq<WordEntry>, rest: seq<WordEntry>) {
    exists idx: seq<int> ::
      && |idx| == |a| && Increasing(idx)
      && forall t :: 0 <= t < |idx| ==> 0 <= idx[t] < |rest| && a[t] == rest[idx[t]]
  }

  lemma NothingPicked(rest: seq<WordEntry>)
    ensures PickedInOrder([], rest)
  {
    var idx: seq<int> := [];
    assert |idx| == 0 && Increasing(idx);
  }

  /** Every index moved one place on, past a dropped head. */
  function Shift(idx: seq<int>): (s: seq<int>)
    ensures |s| == |idx| && forall t :: 0 <= t < |idx| ==> s[t] == idx[t] + 1
  {
    seq(|idx|, t requires 0 <= t < |idx| => idx[t] + 1)
  }

  lemma ShiftKeepsIncreasing(idx: seq<int>)
    requires Increasing(idx) && forall t :: 0 <= t < |idx| ==> 0 <= idx[t]
    ensures Increasing(Shift(idx)) && Increasing([0] + Shift(idx))
  {
    var s := [0] + Shift(idx);
    forall a, b | 0 <= a < b < |s| ensures s[a] < s[b] {
      if a > 0 {
        assert s[a] == idx[a - 1] + 1 && s[b] == idx[b - 1] + 1;
      }
    }
  }

  /** Dropping the head of `rest` keeps what was picked from its tail picked. */
  lemma PickedSkippingHead(a: seq<WordEntry>, rest: seq<WordEntry>)
    requires rest != [] && PickedInOrder(a, rest[1..])
    ensures PickedInOrder(a, rest)
  {
    var idx :| |idx| == |a| && Increasing(idx)
      && forall t :: 0 <= t < |idx| ==> 0 <= idx[t] < |rest[1..]| && a[t] == rest[1..][idx[t]];
    var idx' := Shift(idx);
    ShiftKeepsIncreasing(idx);
    forall t | 0 <= t < |idx'| ensures 0 <= idx'[t] < |rest| && a[t] == rest[idx'[t]] {
      assert rest[1..][idx[t]] == rest[idx[t] + 1];
    }
  }

  /** Taking the head of `rest` in front of what was picked from its tail. */
  lemma PickedTakingHead(a: seq<WordEntry>, rest: seq<WordEntry>)
    requires rest != [] && PickedInOrder(a, rest[1..])
    ensures PickedInOrder([rest[0]] + a, rest)
  {
    var idx :| |idx| == |a| && Increasing(idx)
      && forall t :: 0 <= t < |idx| ==> 0 <= idx[t] < |rest[1..]| && a[t] == rest[1..][idx[t]];
    var idx' := [0] + Shift(idx);
    ShiftKeepsIncreasing(idx);
    var a' := [rest[0]] + a;
    forall t | 0 <= t < |idx'| ensures 0 <= idx'[t] < |rest| && a'[t] == rest[idx'[t]] {
      if t > 0 {
        assert a'[t] == a[t - 1] && idx'[t] == idx[t - 1] + 1;
        assert rest[1..][idx[t - 1]] == rest[idx[t - 1] + 1];
      }
    }
    assert |idx'| == |a'| && Increasing(idx');
  }

  /** The source's crossing loop: each remaining entry in turn goes through
      the crossing search, and is appended on success or silently dropped. */
  function CrossAll(g: Grid, placed: seq<PlacedWord>, rest: seq<WordEntry>): (out: Puzzle)
    requires WellFormed(g) && NonEmptyWords(rest)
    requires Consistent(g, placed) && Linked(placed) && Covered(g, placed)
    ensures WellFormed(out.grid) && |out.grid| == |g|
    ensures Consistent(out.grid, out.placed) && Linked(out.placed) && Covered(out.grid, out.placed)
    ensures placed <= out.placed && |out.placed| <= |placed| + |rest|
    ensures forall k :: |placed| <= k < |out.placed| ==> out.placed[k].entry in rest
    ensures placed == [] ==> out == Puzzle(g, [])
    decreases |rest|
  {
    if rest == [] then Puzzle(g, placed)
    else
      var e := rest[0];
      NonEmptyTail(rest);
      assert |e.word| > 0;
      var attempt := TryPlaceWord(g, placed, e);
      match attempt.placed
      case None => CrossAll(g, placed, rest[1..])
      case Some(pw) =>
        CommitKeepsInvariants(g, placed, e);
        var out := CrossAll(attempt.grid, placed + [pw], rest[1..]);
        CommittedFromRest(placed, pw, rest, out.placed);
        out
  }

  /** What the crossing loop appends after committing `pw`, the placement of
      the head candidate, is still drawn from the candidates. */
  lemma CommittedFromRest(placed: seq<PlacedWord>, pw: PlacedWord, rest: seq<WordEntry>, out: seq<PlacedWord>)
    requires rest != [] && pw.entry == rest[0]
    requires placed + [pw] <= out && |out| <= |placed| + |rest|
    requires forall k :: |placed| + 1 <= k < |out| ==> out[k].entry in rest[1..]
    ensures placed <= out && out[|placed|] == pw
    ensures forall k :: |placed| <= k < |out| ==> out[k].entry in rest
  {
    assert out[|placed|] == (placed + [pw])[|placed|];
    forall k | |placed| + 1 <= k < |out| ensures out[k].entry in rest {
      assert out[k].entry in rest[1..];
    }
  }

  /** One turn of the crossing loop on candidate `e`: the search's placement
      is appended and its grid kept; a failed search leaves the layout as is. */
  function CrossStep(p: Puzzle, e: WordEntry): Puzzle
    requires WellFormed(p.grid) && |e.word| > 0
  {
    var a := TryPlaceWord(p.grid, p.placed, e);
    if a.placed.Some? then Puzzle(a.grid, p.placed + [a.placed.value]) else p
  }

  /** Each candidate is tried against the layout the earlier candidates
      built: the loop over `rest + [e]` is the loop over `rest` followed by
      one more turn on `e`. */
  lemma {:induction false} CrossAllTriesEach(g: Grid, placed: seq<PlacedWord>, rest: seq<WordEntry>, e: WordEntry)
    requires WellFormed(g) && NonEmptyWords(rest) && |e.word| > 0
    requires Consistent(g, placed) && Linked(placed) && Covered(g, placed)
    ensures CrossAll(g, placed, rest + [e]) == CrossStep(CrossAll(g, placed, rest), e)
    decreases |rest|
  {
    if rest == [] {
      assert rest + [e] == [e] && [e][1..] == [];
    } else {
      assert (rest + [e])[0] == rest[0] && (rest + [e])[1..] == rest[1..] + [e];
      NonEmptyTail(rest);
      var a := TryPlaceWord(g, placed, rest[0]);
      match a.placed
      case None =>
        CrossAllTriesEach(g, placed, rest[1..], e);
      case Some(pw) =>
        CommitKeepsInvariants(g, placed, rest[0]);
        CrossAllTriesEach(a.grid, placed + [pw], rest[1..], e);
    }
  }

  /** A committed candidate followed by words picked from the later
      candidates is picked from all of them. */
  lemma PickedAfterCommit(n: int, out: seq<PlacedWord>, rest: seq<WordEntry>)
    requires 0 <= n < |out| && rest != [] && out[n].entry == rest[0]
    requires PickedInOrder(Entries(out[n + 1..]), rest[1..])
    ensures PickedInOrder(Entries(out[n..]), rest)
  {
    PickedTakingHead(Entries(out[n + 1..]), rest);
    EntriesFrom(out, n);
  }

  /** The words the crossing loop appends are candidates taken in candidate
      order, each candidate at most once. */
  lemma {:induction false} CrossAllPicksInOrder(g: Grid, placed: seq<PlacedWord>, rest: seq<WordEntry>)
    requires WellFormed(g) && NonEmptyWords(rest)
    requires Consistent(g, placed) && Linked(placed) && Covered(g, placed)
    ensures PickedInOrder(Entries(CrossAll(g, placed, rest).placed[|placed|..]), rest)
    decreases |rest|
  {
    var out := CrossAll(g, placed, rest);
    if rest == [] {
      assert out.placed == placed;
      assert Entries(out.placed[|placed|..]) == [];
      NothingPicked(rest);
    } else {
      var e := rest[0];
      NonEmptyTail(rest);
      var attempt := TryPlaceWord(g, placed, e);
      match attempt.placed
      case None =>
        assert out == CrossAll(g, placed, rest[1..]);
        CrossAllPicksInOrder(g, placed, rest[1..]);
        PickedSkippingHead(Entries(out.placed[|placed|..]), rest);
      case Some(pw) =>
        CommitKeepsInvariants(g, placed, e);
        assert out == CrossAll(attempt.grid, placed + [pw], rest[1..]);
        CrossAllPicksInOrder(attempt.grid, placed + [pw], rest[1..]);
        assert out.placed[|placed|] == (placed + [pw])[|placed|] == pw;
        PickedAfterCommit(|placed|, out.placed, rest);
    }
  }

  /** `max(0, (size - len) // 2)`: the seed's column, centring it when it fits. */
  function SeedColumn(size: int, len: int): (c: int)
    ensures 0 <= c
    ensures len <= size ==> c + len <= size && c <= size - len - c <= c + 1
    ensures len >= size ==> c == 0
  {
    if (size - len) / 2 < 0 then 0 else (size - len) / 2
  }

  /** The seed placement: across, on row `size // 2`, centred by its length. */
  function Seed(e: WordEntry, size: int): (s: PlacedWord)
    ensures s.entry == e && s.dir == Across && s.col == SeedColumn(size, |e.word|)
    ensures 0 <= s.row - (size - 1 - s.row) <= 1
  {
    PlacedWord(e, size / 2, SeedColumn(size, |e.word|), Across)
  }

  /** On the empty grid the seed placement is legal exactly when the word is
      no longer than the grid's side. */
  lemma SeedFitsIff(e: WordEntry, size: nat)
    requires |e.word| > 0
    ensures var s := Seed(e, size);
      CanPlace(EmptyGrid(size), e.word, s.Start(), s.dir) <==> |e.word| <= size
  {
    var g := EmptyGrid(size);
    var s := Seed(e, size);
    var w := e.word;
    if |w| <= size {
      assert 0 <= s.col && s.col + |w| <= size;
      forall i | 0 <= i < |w| ensures InBounds(g, Target(s.Start(), Across, i)) {
      }
      assert InsideGrid(g, w, s.Start(), Across);
    } else {
      assert s.col == 0;
      assert !InBounds(g, Target(s.Start(), Across, |w| - 1));
    }
  }

  /** The seeding step: the first entry goes across at its seed placement
      when that is legal, and otherwise nothing is placed. */
  function SeedPuzzle(first: WordEntry, size: nat): (out: Puzzle)
    requires |first.word| > 0
    ensures WellFormed(out.grid) && |out.grid| == size
    ensures Consistent(out.grid, out.placed) && Linked(out.placed) && Covered(out.grid, out.placed)
    ensures |first.word| <= size ==> out.placed == [Seed(first, size)]
    ensures |first.word| > size ==> out == Puzzle(EmptyGrid(size), [])
  {
    var g0 := EmptyGrid(size);
    var seed := Seed(first, size);
    SeedFitsIff(first, size);
    if CanPlace(g0, first.word, seed.Start(), Across) then
      PlaceKeepsConsistent(g0, [], seed);
      PlaceKeepsCovered(g0, [], seed);
      Puzzle(PlaceWord(g0, first.word, seed.Start(), Across), [seed])
    else
      Puzzle(g0, [])
  }

  /** What the sorted list keeps of the selected one. */
  lemma SortedEntries(selected: seq<WordEntry>)
    requires NonEmptyWords(selected)
    ensures var sorted := SortByLength(selected);
      && |sorted| == |selected|
      && NonEmptyWords(sorted)
      && forall e :: e in sorted ==> e in selected
  {
    var sorted := SortByLength(selected);
    assert |sorted| == |multiset(sorted)| == |selected|;
    forall e | e in sorted ensures e in selected {
      assert e in multiset(selected);
    }
    forall k | 0 <= k < |sorted| ensures |sorted[k].word| > 0 {
      assert sorted[k] in selected;
    }
  }

  /** The seed and the crossed words all come from the selected entries. */
  lemma PlacedFromSelected(selected: seq<WordEntry>, sorted: seq<WordEntry>, seeds: seq<PlacedWord>, out: seq<PlacedWord>)
    requires sorted != [] && forall e :: e in sorted ==> e in selected
    requires seeds <= out && forall k :: 0 <= k < |seeds| ==> seeds[k].entry == sorted[0]
    requires forall k :: |seeds| <= k < |out| ==> out[k].entry in sorted[1..]
    ensures forall k :: 0 <= k < |out| ==> out[k].entry in selected
  {
    forall k | 0 <= k < |out| ensures out[k].entry in selected {
      if k < |seeds| {
        assert out[k] == seeds[k];
        assert sorted[0] in sorted;
      } else {
        assert out[k].entry in sorted[1..];
      }
    }
  }

  /** generate_crossword on the already selected entries `selected`, with the
      random selection left to the caller. */
  function GenerateCrossword(selected: seq<WordEntry>, size: nat): (out: Puzzle)
    requires NonEmptyWords(selected)
    ensures WellFormed(out.grid) && |out.grid| == size
    ensures Consistent(out.grid, out.placed)
    ensures Linked(out.placed)
    ensures Covered(out.grid, out.placed)
    ensures forall k :: 0 <= k < |out.placed| ==> out.placed[k].entry in selected
    ensures |out.placed| <= |selected|
    ensures selected == [] ==> out == Puzzle(EmptyGrid(size), [])
    ensures selected != [] ==>
      var seed := SortByLength(selected)[0];
      && (|out.placed| > 0 <==> |seed.word| <= size)
      && (|out.placed| > 0 ==> out.placed[0] == Seed(seed, size))
      && forall e :: e in selected ==> |e.word| <= |seed.word|
  {
    var sorted := SortByLength(selected);
    SortedEntries(selected);
    if sorted == [] then Puzzle(EmptyGrid(size), [])
    else
      SortPutsLongestFirst(selected);
      var rest := sorted[1..];
      NonEmptyTail(sorted);
      var seeded := SeedPuzzle(sorted[0], size);
      var out := CrossAll(seeded.grid, seeded.placed, rest);
      PlacedFromSelected(selected, sorted, seeded.placed, out.placed);
      assert |out.placed| > 0 ==> out.placed[0] == seeded.placed[0];
      out
  }

  /** A placed word is never longer than the grid's side. */
  lemma PlacedWordsFit(g: Grid, placed: seq<PlacedWord>, k: int)
    requires WellFormed(g) && Consistent(g, placed) && 0 <= k < |placed|
    ensures |placed[k].entry.word| <= |g|
  {
    var q := placed[k];
    if |q.entry.word| > 0 {
      assert Spells(g, q);
      assert InBounds(g, q.Cell(0)) && InBounds(g, q.Cell(|q.entry.word| - 1));
    }
  }
}
