/** The word-search puzzle engine.

    Generation builds a 12x12 letter grid: every vocabulary word is written along
    a horizontal, vertical or down-right diagonal run at a randomly drawn start,
    retried until the run stays inside the grid and meets no different letter;
    then every cell still empty gets a random upper-case letter.

    Play keeps the grid, the list of words found so far and the ordered list of
    selected cells.  A click toggles a cell in or out of the selection; "verify"
    reads the selected letters in order and accepts the first vocabulary word equal
    to them or to their reversal, recording it when it was not found before. */
module WordSearch {
  import opened Wrappers

  /** Side length of the grid. */
  const Size: nat := 12

  /** The vocabulary, in the order it is placed and searched. */
  const Words: seq<string> :=
    ["JUPITER", "MARTE", "VENUS", "TIERRA", "LUNA", "SOL", "ESTRELLA", "GALAXIA"]

  /** The content of a cell no word has been written to yet (the empty string of
      the component's grid). */
  const EmptyCell: char := '\0'

  /** A grid as rows of cells. */
  type Grid = seq<seq<char>>

  /** The three orientations a word may be written in. */
  datatype Direction = Horizontal | Vertical | Diagonal

  /** A candidate start position and orientation for a word. */
  datatype Placement = Placement(dir: Direction, row: int, col: int)

  /** A grid coordinate, as the selection records it. */
  datatype Cell = Cell(row: int, col: int)

  predicate IsUpper(ch: char)
  {
    'A' <= ch <= 'Z'
  }

  /** A vocabulary word: upper-case letters only. */
  predicate IsWord(w: string)
  {
    forall i :: 0 <= i < |w| ==> IsUpper(w[i])
  }

  predicate Distinct<T(==)>(s: seq<T>)
  {
    forall i, j :: 0 <= i < j < |s| ==> s[i] != s[j]
  }

  /** `s` read back to front. */
  function Reverse<T>(s: seq<T>): (r: seq<T>)
    ensures |r| == |s|
    ensures forall i :: 0 <= i < |s| ==> r[i] == s[|s| - 1 - i]
  {
    if s == [] then [] else Reverse(s[1..]) + [s[0]]
  }

  lemma ReverseReverse<T>(s: seq<T>)
    ensures Reverse(Reverse(s)) == s
  {
    assert forall i :: 0 <= i < |s| ==> Reverse(Reverse(s))[i] == s[i];
  }

  // ---------------------------------------------------------------------------
  // Grid geometry

  /** An n x n grid. */
  predicate IsSquare(g: Grid, n: int)
  {
    |g| == n && forall r :: 0 <= r < |g| ==> |g[r]| == n
  }

  predicate InGrid(g: Grid, c: Cell)
  {
    0 <= c.row < |g| && 0 <= c.col < |g[c.row]|
  }

  function CellValue(g: Grid, c: Cell): char
    requires InGrid(g, c)
  {
    g[c.row][c.col]
  }

  /** The cell holding letter `i` of a word placed at `p`. */
  function At(p: Placement, i: int): Cell
  {
    match p.dir
    case Horizontal => Cell(p.row, p.col + i)
    case Vertical => Cell(p.row + i, p.col)
    case Diagonal => Cell(p.row + i, p.col + i)
  }

  /** Where cell `c` lies along the line through `p` in p's orientation: At(p, k)
      is `c` for the offset k returned, and -1 means `c` is off that line. */
  function Offset(p: Placement, c: Cell): (k: int)
    ensures At(p, k) == c || k == -1
  {
    match p.dir
    case Horizontal => if c.row == p.row then c.col - p.col else -1
    case Vertical => if c.col == p.col then c.row - p.row else -1
    case Diagonal => if c.row - p.row == c.col - p.col then c.row - p.row else -1
  }

  /** Distinct offsets name distinct cells: a run never visits a cell twice. */
  lemma OffsetOfAt(p: Placement, i: int)
    requires 0 <= i
    ensures Offset(p, At(p, i)) == i
  {
  }

  /** The cells of a run of length `len` starting at `p`, in reading order. */
  function RunCells(p: Placement, len: nat): (cells: seq<Cell>)
    ensures |cells| == len && forall i :: 0 <= i < len ==> cells[i] == At(p, i)
  {
    seq(len, i => At(p, i))
  }

  /** A start the random draw can produce: a row and a column of the grid. */
  predicate IsCandidate(p: Placement, size: int)
  {
    0 <= p.row < size && 0 <= p.col < size
  }

  /** The edge test of the placement check: the run of `len` cells does not leave
      the grid, testing the column for a horizontal run, the row for a vertical one
      and both for a diagonal. */
  predicate WithinGrid(p: Placement, len: int, size: int)
  {
    match p.dir
    case Horizontal => p.col + len <= size
    case Vertical => p.row + len <= size
    case Diagonal => p.row + len <= size && p.col + len <= size
  }

  /** Every cell of the run is a cell of the grid. */
  predicate RunInGrid(g: Grid, p: Placement, len: int)
  {
    forall i :: 0 <= i < len ==> InGrid(g, At(p, i))
  }

  /** The edge test is enough to keep a run from a candidate start inside the
      grid. */
  lemma WithinGridIsInGrid(g: Grid, p: Placement, len: int, size: int)
    requires IsSquare(g, size) && IsCandidate(p, size) && WithinGrid(p, len, size)
    ensures RunInGrid(g, p, len)
  {
  }

  /** A cell can take letter `ch` when it is still empty or already holds `ch`. */
  predicate Compatible(cell: char, ch: char)
  {
    cell == EmptyCell || cell == ch
  }

  /** The placement check of `word` at `p`: the run stays inside the grid and
      every cell on it is empty or already holds that position's letter. */
  predicate CanPlace(g: Grid, word: string, p: Placement, size: int)
    requires IsSquare(g, size) && IsCandidate(p, size)
  {
    WithinGrid(p, |word|, size) &&
    forall i :: 0 <= i < |word| ==> Compatible(CellValue(g, At(p, i)), word[i])
  }

  /** `word` is spelt, in order, along the run starting at `p`. */
  predicate LiesOn(g: Grid, word: string, p: Placement)
  {
    RunInGrid(g, p, |word|) &&
    forall i :: 0 <= i < |word| ==> CellValue(g, At(p, i)) == word[i]
  }

  /** `word` lies on some straight run of the grid from a candidate start. */
  ghost predicate Contains(g: Grid, word: string, size: int)
  {
    exists p :: IsCandidate(p, size) && LiesOn(g, word, p)
  }

  /** A word longer than the grid side passes no placement check, so the
      code's retry loop could never end for it. */
  lemma LongWordNeverFits(g: Grid, word: string, p: Placement, size: int)
    requires IsSquare(g, size) && IsCandidate(p, size) && |word| > size
    ensures !CanPlace(g, word, p, size)
  {
  }

  // ---------------------------------------------------------------------------
  // Writing a word and filling the rest

  /** The grid after writing `word` along the run starting at `p`. */
  function Place(g: Grid, word: string, p: Placement): (h: Grid)
    ensures |h| == |g| && forall r :: 0 <= r < |g| ==> |h[r]| == |g[r]|
  {
    seq(|g|, r requires 0 <= r < |g| =>
      seq(|g[r]|, c requires 0 <= c < |g[r]| => Written(g, word, p, |word|, r, c)))
  }

  /** Cell (r, c) once the first `n` letters of `word` are written along the run
      starting at `p`. */
  function Written(g: Grid, word: string, p: Placement, n: int, r: int, c: int): char
    requires 0 <= r < |g| && 0 <= c < |g[r]| && n <= |word|
  {
    var k := Offset(p, Cell(r, c));
    if 0 <= k < n then word[k] else g[r][c]
  }

  /** After placing, the run spells the word. */
  lemma PlaceSpellsWord(g: Grid, word: string, p: Placement)
    requires RunInGrid(g, p, |word|)
    ensures LiesOn(Place(g, word, p), word, p)
  {
    forall i | 0 <= i < |word|
      ensures InGrid(Place(g, word, p), At(p, i))
      ensures CellValue(Place(g, word, p), At(p, i)) == word[i]
    {
      OffsetOfAt(p, i);
    }
  }

  /** Placing changes no cell off the run. */
  lemma PlaceLeavesOtherCells(g: Grid, word: string, p: Placement)
    ensures forall r, c ::
      (0 <= r < |g| && 0 <= c < |g[r]| &&
       forall i :: 0 <= i < |word| ==> At(p, i) != Cell(r, c)) ==>
      Place(g, word, p)[r][c] == g[r][c]
  {
  }

  /** Placing after a successful check never changes a letter already in the
      grid: a cell on the run that was not empty already held the letter. */
  lemma PlaceKeepsLetters(g: Grid, word: string, p: Placement, size: int)
    requires IsSquare(g, size) && IsCandidate(p, size) && CanPlace(g, word, p, size)
    ensures forall r, c :: 0 <= r < |g| && 0 <= c < |g[r]| && g[r][c] != EmptyCell ==>
      Place(g, word, p)[r][c] == g[r][c]
  {
    forall r, c | 0 <= r < |g| && 0 <= c < |g[r]| && g[r][c] != EmptyCell
      ensures Place(g, word, p)[r][c] == g[r][c]
    {
      var k := Offset(p, Cell(r, c));
      if 0 <= k < |word| {
        assert Compatible(CellValue(g, At(p, k)), word[k]);
      }
    }
  }

  /** So a word placed earlier stays intact. */
  lemma PlaceKeepsEarlierWord(g: Grid, word: string, p: Placement, size: int,
                              earlier: string, q: Placement)
    requires IsSquare(g, size) && IsCandidate(p, size) && CanPlace(g, word, p, size)
    requires IsWord(earlier) && LiesOn(g, earlier, q)
    ensures LiesOn(Place(g, word, p), earlier, q)
  {
    PlaceKeepsLetters(g, word, p, size);
    forall i | 0 <= i < |earlier|
      ensures CellValue(Place(g, word, p), At(q, i)) == earlier[i]
    {
      assert IsUpper(earlier[i]);
    }
  }

  /** Every cell is empty or an upper-case letter. */
  predicate Clean(g: Grid)
  {
    forall r, c :: 0 <= r < |g| && 0 <= c < |g[r]| ==> g[r][c] == EmptyCell || IsUpper(g[r][c])
  }

  /** Every cell holds an upper-case letter. */
  predicate IsFull(g: Grid)
  {
    forall r, c :: 0 <= r < |g| && 0 <= c < |g[r]| ==> IsUpper(g[r][c])
  }

  lemma PlaceKeepsClean(g: Grid, word: string, p: Placement)
    requires Clean(g) && IsWord(word)
    ensures Clean(Place(g, word, p))
  {
  }

  /** The letter drawn by a random index in [0, 26). */
  function LetterOf(k: int): (ch: char)
    requires 0 <= k < 26
    ensures IsUpper(ch) && ch as int - 'A' as int == k
  {
    (65 + k) as char
  }

  /** The grid after every empty cell (r, c) gets the letter of draw(r, c). */
  function Fill(g: Grid, draw: (int, int) -> int): (h: Grid)
    requires forall r, c :: 0 <= draw(r, c) < 26
    ensures |h| == |g| && forall r :: 0 <= r < |g| ==> |h[r]| == |g[r]|
  {
    seq(|g|, r requires 0 <= r < |g| =>
      seq(|g[r]|, c requires 0 <= c < |g[r]| =>
        if g[r][c] == EmptyCell then LetterOf(draw(r, c)) else g[r][c]))
  }

  /** After the fill no cell is empty. */
  lemma FillIsFull(g: Grid, draw: (int, int) -> int)
    requires forall r, c :: 0 <= draw(r, c) < 26
    requires Clean(g)
    ensures IsFull(Fill(g, draw))
  {
  }

  /** The fill leaves every placed word intact. */
  lemma FillKeepsWord(g: Grid, draw: (int, int) -> int, w: string, p: Placement)
    requires forall r, c :: 0 <= draw(r, c) < 26
    requires IsWord(w) && LiesOn(g, w, p)
    ensures LiesOn(Fill(g, draw), w, p)
  {
    forall i | 0 <= i < |w|
      ensures CellValue(Fill(g, draw), At(p, i)) == w[i]
    {
      assert IsUpper(w[i]);
    }
  }

  // ---------------------------------------------------------------------------
  // The generator, in place on a two-dimensional array

  /** The rows of a grid array. */
  function ToRows(a: array2<char>): (g: Grid)
    reads a
    ensures |g| == a.Length0 && forall r :: 0 <= r < |g| ==> |g[r]| == a.Length1
    ensures forall r, c :: 0 <= r < a.Length0 && 0 <= c < a.Length1 ==> g[r][c] == a[r, c]
  {
    seq(a.Length0, r requires 0 <= r < a.Length0 reads a =>
      seq(a.Length1, c requires 0 <= c < a.Length1 reads a => a[r, c]))
  }

  /** Two grids with the same shape and the same cells are equal. */
  lemma SameGrid(g: Grid, h: Grid)
    requires |g| == |h| && forall r :: 0 <= r < |g| ==> |g[r]| == |h[r]|
    requires forall r, c :: 0 <= r < |g| && 0 <= c < |g[r]| ==> g[r][c] == h[r][c]
    ensures g == h
  {
    forall r | 0 <= r < |g|
      ensures g[r] == h[r]
    {
      assert forall c :: 0 <= c < |g[r]| ==> g[r][c] == h[r][c];
    }
  }

  /** The placement check, as an index loop that stops at the first conflict. */
  method CanPlaceWord(grid: array2<char>, word: string, row: int, col: int,
                      direction: Direction, size: int) returns (ok: bool)
    requires grid.Length0 == size && grid.Length1 == size
    requires 0 <= row < size && 0 <= col < size
    ensures ok == CanPlace(ToRows(grid), word, Placement(direction, row, col), size)
  {
    ghost var p := Placement(direction, row, col);
    ghost var g := ToRows(grid);
    if direction == Horizontal {
      if col + |word| > size {
        return false;
      }
      for i := 0 to |word|
        invariant forall k :: 0 <= k < i ==> Compatible(CellValue(g, At(p, k)), word[k])
      {
        if grid[row, col + i] != EmptyCell && grid[row, col + i] != word[i] {
          assert !Compatible(CellValue(g, At(p, i)), word[i]);
          return false;
        }
      }
    } else if direction == Vertical {
      if row + |word| > size {
        return false;
      }
      for i := 0 to |word|
        invariant forall k :: 0 <= k < i ==> Compatible(CellValue(g, At(p, k)), word[k])
      {
        if grid[row + i, col] != EmptyCell && grid[row + i, col] != word[i] {
          assert !Compatible(CellValue(g, At(p, i)), word[i]);
          return false;
        }
      }
    } else {
      if row + |word| > size || col + |word| > size {
        return false;
      }
      for i := 0 to |word|
        invariant forall k :: 0 <= k < i ==> Compatible(CellValue(g, At(p, k)), word[k])
      {
        if grid[row + i, col + i] != EmptyCell && grid[row + i, col + i] != word[i] {
          assert !Compatible(CellValue(g, At(p, i)), word[i]);
          return false;
        }
      }
    }
    return true;
  }

  /** Writes `word` along the run starting at `p`, in place. */
  method PlaceWord(grid: array2<char>, word: string, p: Placement)
    requires grid.Length0 == grid.Length1
    requires IsCandidate(p, grid.Length0) && WithinGrid(p, |word|, grid.Length0)
    modifies grid
    ensures ToRows(grid) == Place(old(ToRows(grid)), word, p)
  {
    ghost var g0 := ToRows(grid);
    var row, col := p.row, p.col;
    for i := 0 to |word|
      invariant forall r, c :: 0 <= r < grid.Length0 && 0 <= c < grid.Length1 ==>
        grid[r, c] == Written(g0, word, p, i, r, c)
    {
      var r, c;
      if p.dir == Horizontal {
        r, c := row, col + i;
      } else if p.dir == Vertical {
        r, c := row + i, col;
      } else {
        r, c := row + i, col + i;
      }
      assert Cell(r, c) == At(p, i);
      OffsetOfAt(p, i);
      ghost var before := ToRows(grid);
      grid[r, c] := word[i];
      forall r', c' | 0 <= r' < grid.Length0 && 0 <= c' < grid.Length1
        ensures grid[r', c'] == Written(g0, word, p, i + 1, r', c')
      {
        if r' != r || c' != c {
          assert grid[r', c'] == before[r'][c'];
          assert Offset(p, Cell(r', c')) != i;
        }
      }
    }
    PlacedRows(grid, g0, word, p);
  }

  /** An array whose cells are those of Place(g0, word, p) has those rows. */
  lemma PlacedRows(a: array2<char>, g0: Grid, word: string, p: Placement)
    requires IsSquare(g0, a.Length0) && a.Length0 == a.Length1
    requires forall r, c :: 0 <= r < a.Length0 && 0 <= c < a.Length1 ==>
      a[r, c] == Written(g0, word, p, |word|, r, c)
    ensures ToRows(a) == Place(g0, word, p)
  {
    SameGrid(ToRows(a), Place(g0, word, p));
  }

  /** Gives every empty cell the letter of its random draw, row by row. */
  method FillEmpty(grid: array2<char>, draw: (int, int) -> int)
    requires forall r, c :: 0 <= draw(r, c) < 26
    modifies grid
    ensures ToRows(grid) == Fill(old(ToRows(grid)), draw)
  {
    ghost var g0 := ToRows(grid);
    for i := 0 to grid.Length0
      invariant forall r, c :: 0 <= r < grid.Length0 && 0 <= c < grid.Length1 ==>
        grid[r, c] == if r < i && g0[r][c] == EmptyCell then LetterOf(draw(r, c)) else g0[r][c]
    {
      for j := 0 to grid.Length1
        invariant forall r, c :: 0 <= r < grid.Length0 && 0 <= c < grid.Length1 ==>
          grid[r, c] ==
            if (r < i || (r == i && c < j)) && g0[r][c] == EmptyCell
            then LetterOf(draw(r, c)) else g0[r][c]
      {
        if grid[i, j] == EmptyCell {
          grid[i, j] := LetterOf(draw(i, j));
        }
      }
    }
    SameGrid(ToRows(grid), Fill(g0, draw));
  }

  /** The grid before any word is written: size x size empty cells. */
  function EmptyGrid(size: nat): (g: Grid)
    ensures IsSquare(g, size)
    ensures forall r, c :: 0 <= r < size && 0 <= c < size ==> g[r][c] == EmptyCell
  {
    seq(size, _ => seq(size, _ => EmptyCell))
  }

  /** The index of the first candidate, from `next` on, that passes the placement
      check for `word`; None when none does. */
  function FirstFit(g: Grid, word: string, candidates: seq<Placement>, next: nat, size: int): (k: Option<nat>)
    requires IsSquare(g, size) && next <= |candidates|
    requires forall k :: 0 <= k < |candidates| ==> IsCandidate(candidates[k], size)
    ensures k.Some? ==> next <= k.value < |candidates|
    decreases |candidates| - next
  {
    if next == |candidates| then None
    else if CanPlace(g, word, candidates[next], size) then Some(next)
    else FirstFit(g, word, candidates, next + 1, size)
  }

  /** The first fit passes the check and every candidate before it fails; no
      fit means every candidate from `next` on fails. */
  lemma {:induction false} FirstFitIsFirst(g: Grid, word: string, candidates: seq<Placement>, next: nat, size: int)
    requires IsSquare(g, size) && next <= |candidates|
    requires forall k :: 0 <= k < |candidates| ==> IsCandidate(candidates[k], size)
    ensures var k := FirstFit(g, word, candidates, next, size);
      && (k.Some? ==>
            && CanPlace(g, word, candidates[k.value], size)
            && forall j :: next <= j < k.value ==> !CanPlace(g, word, candidates[j], size))
      && (k.None? ==> forall j :: next <= j < |candidates| ==> !CanPlace(g, word, candidates[j], size))
    decreases |candidates| - next
  {
    if next < |candidates| && !CanPlace(g, word, candidates[next], size) {
      FirstFitIsFirst(g, word, candidates, next + 1, size);
    }
  }

  /** The grid the placement loop leaves before the fill: each word in turn is
      written at its first fitting candidate, the search for a word starting just
      after the candidate the previous word took.  None when some word finds no
      fitting candidate before the candidates run out. */
  function Layout(g: Grid, words: seq<string>, candidates: seq<Placement>, next: nat, size: int): (r: Option<Grid>)
    requires IsSquare(g, size) && next <= |candidates|
    requires forall k :: 0 <= k < |candidates| ==> IsCandidate(candidates[k], size)
    ensures r.Some? ==> IsSquare(r.value, size)
    ensures words == [] ==> r == Some(g)
    decreases |words|
  {
    if words == [] then Some(g)
    else
      match FirstFit(g, words[0], candidates, next, size)
      case None => None
      case Some(k) => Layout(Place(g, words[0], candidates[k]), words[1..], candidates, k + 1, size)
  }

  /** A fitting candidate is taken: "SOL" at the top-left corner of an empty grid
      fits, so the layout, and with it the generator, must succeed there. */
  lemma FittingCandidateIsTaken()
    ensures Layout(EmptyGrid(Size), ["SOL"], [Placement(Horizontal, 0, 0)], 0, Size).Some?
  {
    var g := EmptyGrid(Size);
    var p := Placement(Horizontal, 0, 0);
    assert forall i :: 0 <= i < 3 ==> CellValue(g, At(p, i)) == EmptyCell;
    assert CanPlace(g, "SOL", p, Size);
    assert FirstFit(g, "SOL", [p], 0, Size) == Some(0);
    assert ["SOL"][1..] == [];
  }

  /** One step of the layout: the first word goes to its first fitting
      candidate and the rest continue after it, or the layout fails. */
  lemma LayoutStep(g: Grid, words: seq<string>, candidates: seq<Placement>, next: nat, size: int)
    requires IsSquare(g, size) && next <= |candidates|
    requires forall k :: 0 <= k < |candidates| ==> IsCandidate(candidates[k], size)
    requires words != []
    ensures var fit := FirstFit(g, words[0], candidates, next, size);
      && (fit.None? ==> Layout(g, words, candidates, next, size) == None)
      && (fit.Some? ==>
            Layout(g, words, candidates, next, size) ==
            Layout(Place(g, words[0], candidates[fit.value]), words[1..], candidates, fit.value + 1, size))
  {
  }

  /** The retry loop for one word: the candidates are taken in turn from `next`
      until one passes the placement check, and the word is written there.  The
      word goes to the first fitting candidate; when none fits the grid is left
      as it was and every candidate is used up. */
  method PlaceOne(grid: array2<char>, word: string, candidates: seq<Placement>, next: nat, size: int)
    returns (placed: bool, taken: nat)
    requires grid.Length0 == size && grid.Length1 == size && next <= |candidates|
    requires forall k :: 0 <= k < |candidates| ==> IsCandidate(candidates[k], size)
    modifies grid
    ensures var fit := FirstFit(old(ToRows(grid)), word, candidates, next, size);
      && (placed <==> fit.Some?)
      && (placed ==>
            taken == fit.value && ToRows(grid) == Place(old(ToRows(grid)), word, candidates[taken]))
      && (!placed ==> ToRows(grid) == old(ToRows(grid)))
  {
    ghost var g := ToRows(grid);
    placed, taken := false, 0;
    var i := next;
    while !placed
      invariant next <= i <= |candidates|
      invariant !placed ==> ToRows(grid) == g
      invariant !placed ==> FirstFit(g, word, candidates, next, size) == FirstFit(g, word, candidates, i, size)
      invariant placed ==> FirstFit(g, word, candidates, next, size) == Some(taken)
      invariant placed ==> taken < |candidates| && ToRows(grid) == Place(g, word, candidates[taken])
      decreases |candidates| - i
    {
      if i == |candidates| {
        return;
      }
      var p := candidates[i];
      var fits := CanPlaceWord(grid, word, p.row, p.col, p.dir, size);
      if fits {
        PlaceWord(grid, word, p);
        placed, taken := true, i;
      }
      i := i + 1;
    }
  }

  /** Each of the words `placed` lies on the candidate run recorded for it and
      is no longer than the grid side. */
  ghost predicate Placed(g: Grid, placed: seq<string>, placements: seq<Placement>, size: int)
  {
    && |placements| == |placed|
    && forall k :: 0 <= k < |placed| ==>
         |placed[k]| <= size && IsCandidate(placements[k], size) && LiesOn(g, placed[k], placements[k])
  }

  /** The placement loop is stuck at word `failed`: the grid `stuck` it met is a
      clean square grid holding every earlier word, and no candidate from `from`
      on passes the placement check for the word on it. */
  ghost predicate Stuck(words: seq<string>, candidates: seq<Placement>, size: int,
                        failed: nat, stuck: Grid, from: nat)
    requires forall k :: 0 <= k < |candidates| ==> IsCandidate(candidates[k], size)
  {
    && failed < |words| && from <= |candidates| && IsSquare(stuck, size) && Clean(stuck)
    && (forall k :: 0 <= k < failed ==> Contains(stuck, words[k], size))
    && (forall k :: from <= k < |candidates| ==> !CanPlace(stuck, words[failed], candidates[k], size))
  }

  /** The first `n` words, placed at candidate runs, are contained in the grid. */
  lemma PlacedAreContained(g: Grid, words: seq<string>, n: nat, placements: seq<Placement>, size: int)
    requires n <= |words| && Placed(g, words[..n], placements, size)
    ensures forall k :: 0 <= k < n ==> Contains(g, words[k], size)
  {
    forall k | 0 <= k < n
      ensures Contains(g, words[k], size)
    {
      assert words[..n][k] == words[k];
      assert IsCandidate(placements[k], size) && LiesOn(g, words[k], placements[k]);
    }
  }

  /** Placing a word where the check passes keeps the words placed before on
      their runs, puts the new word on its run and keeps the grid clean. */
  lemma PlacingKeepsPlaced(g: Grid, placed: seq<string>, placements: seq<Placement>,
                           word: string, p: Placement, size: int)
    requires IsSquare(g, size) && Clean(g) && IsWord(word)
    requires IsCandidate(p, size) && CanPlace(g, word, p, size)
    requires Placed(g, placed, placements, size)
    requires forall k :: 0 <= k < |placed| ==> IsWord(placed[k])
    ensures Placed(Place(g, word, p), placed + [word], placements + [p], size)
    ensures Clean(Place(g, word, p))
  {
    var h := Place(g, word, p);
    forall k | 0 <= k < |placed|
      ensures LiesOn(h, placed[k], placements[k])
    {
      PlaceKeepsEarlierWord(g, word, p, size, placed[k], placements[k]);
    }
    WithinGridIsInGrid(g, p, |word|, size);
    PlaceSpellsWord(g, word, p);
    PlaceKeepsClean(g, word, p);
    var ws, ps := placed + [word], placements + [p];
    assert forall k :: 0 <= k < |placed| ==> ws[k] == placed[k] && ps[k] == placements[k];
    assert ws[|placed|] == word && ps[|placed|] == p;
  }

  /** The placement loop over all words: each word runs the retry loop from
      where the previous word stopped.  The grid becomes the first-fit layout of
      the words, and the loop fails exactly when that layout does; a failure names
      the word `failed` that could not be placed, the grid `stuck` it met (every
      earlier word on it) and the index `from` of its first candidate: not one
      candidate from there on passes the check on that grid. */
  method PlaceWords(grid: array2<char>, words: seq<string>, candidates: seq<Placement>, size: nat)
    returns (ok: bool, ghost placements: seq<Placement>, ghost failed: nat, ghost stuck: Grid, ghost from: nat)
    requires grid.Length0 == size && grid.Length1 == size && Clean(ToRows(grid))
    requires forall k :: 0 <= k < |words| ==> IsWord(words[k])
    requires forall k :: 0 <= k < |candidates| ==> IsCandidate(candidates[k], size)
    modifies grid
    ensures ok <==> Layout(old(ToRows(grid)), words, candidates, 0, size).Some?
    ensures ok ==> ToRows(grid) == Layout(old(ToRows(grid)), words, candidates, 0, size).value
    ensures ok ==> Placed(ToRows(grid), words, placements, size) && Clean(ToRows(grid))
    ensures !ok ==> Stuck(words, candidates, size, failed, stuck, from)
  {
    failed, stuck, from := 0, [], 0;
    ghost var cur := ToRows(grid);
    ghost var layout := Layout(cur, words, candidates, 0, size);
    assert words[0..] == words;
    placements := [];
    var next := 0;
    for w := 0 to |words|
      invariant next <= |candidates|
      invariant cur == ToRows(grid) && IsSquare(cur, size)
      invariant layout == Layout(cur, words[w..], candidates, next, size)
      invariant Clean(cur)
      invariant Placed(cur, words[..w], placements, size)
    {
      var word := words[w];
      assert words[w..][0] == word && words[w..][1..] == words[w + 1..];
      assert words[..w + 1] == words[..w] + [word];
      LayoutStep(cur, words[w..], candidates, next, size);
      FirstFitIsFirst(cur, word, candidates, next, size);
      var placed, taken := PlaceOne(grid, word, candidates, next, size);
      if !placed {
        failed, stuck, from := w, cur, next;
        PlacedAreContained(stuck, words, w, placements, size);
        ok := false;
        return;
      }
      var p := candidates[taken];
      PlacingKeepsPlaced(cur, words[..w], placements, word, p, size);
      cur := Place(cur, word, p);
      placements := placements + [p];
      next := taken + 1;
    }
    assert words[..|words|] == words;
    ok := true;
  }

  /** Builds a size x size grid holding every word of `words`: the placement loop
      on an empty grid, then the fill.  When the candidates run out the generation
      fails, which stands for the code retrying forever.  The grid is exactly the
      first-fit layout of the words, filled, and generation fails exactly when that
      layout does; a failure carries the witness of `PlaceWords`. */
  method GenerateGrid(words: seq<string>, size: nat, candidates: seq<Placement>,
                      draw: (int, int) -> int)
    returns (grid: array2<char>, ok: bool, ghost failed: nat, ghost stuck: Grid, ghost from: nat)
    requires forall k :: 0 <= k < |words| ==> IsWord(words[k])
    requires forall k :: 0 <= k < |candidates| ==> IsCandidate(candidates[k], size)
    requires forall r, c :: 0 <= draw(r, c) < 26
    ensures fresh(grid) && grid.Length0 == size && grid.Length1 == size
    ensures ok <==> Layout(EmptyGrid(size), words, candidates, 0, size).Some?
    ensures ok ==> ToRows(grid) == Fill(Layout(EmptyGrid(size), words, candidates, 0, size).value, draw)
    ensures ok ==> forall k :: 0 <= k < |words| ==> |words[k]| <= size
    ensures ok ==> IsFull(ToRows(grid))
    ensures ok ==> forall k :: 0 <= k < |words| ==> Contains(ToRows(grid), words[k], size)
    ensures !ok ==> failed < |words| && from <= |candidates| && IsSquare(stuck, size) && Clean(stuck)
    ensures !ok ==> forall k :: 0 <= k < failed ==> Contains(stuck, words[k], size)
    ensures !ok ==> forall k :: from <= k < |candidates| ==> !CanPlace(stuck, words[failed], candidates[k], size)
  {
    grid := new char[size, size]((_, _) => EmptyCell);
    SameGrid(ToRows(grid), EmptyGrid(size));
    ghost var placements;
    ok, placements, failed, stuck, from := PlaceWords(grid, words, candidates, size);
    if !ok {
      assert Stuck(words, candidates, size, failed, stuck, from);
      return;
    }
    assert Placed(ToRows(grid), words, placements, size);
    ghost var unfilled := ToRows(grid);
    FillEmpty(grid, draw);
    FillIsFull(unfilled, draw);
    forall k | 0 <= k < |words|
      ensures Contains(ToRows(grid), words[k], size)
    {
      FillKeepsWord(unfilled, draw, words[k], placements[k]);
      assert IsCandidate(placements[k], size) && LiesOn(ToRows(grid), words[k], placements[k]);
    }
  }

  // ---------------------------------------------------------------------------
  // Play

  /** The state of a game: the letter grid, the words found so far in the order
      they were found, and the selected cells in the order they were clicked. */
  datatype Session = Session(grid: Grid, foundWords: seq<string>, selectedCells: seq<Cell>)

  /** What a verification reports: a newly found word (and whether it was the
      last one missing), a word found before, or no vocabulary word. */
  datatype Outcome = Matched(word: string, completed: bool) | AlreadyFound(word: string) | NoMatch

  /** The session invariant: a full square grid containing every word, a found
      list that is a duplicate-free part of the vocabulary, and a duplicate-free
      selection of grid cells. */
  ghost predicate Valid(words: seq<string>, s: Session)
  {
    && IsSquare(s.grid, |s.grid|)
    && IsFull(s.grid)
    && (forall w :: w in words ==> Contains(s.grid, w, |s.grid|))
    && Distinct(s.foundWords)
    && (forall w :: w in s.foundWords ==> w in words)
    && Distinct(s.selectedCells)
    && (forall c :: c in s.selectedCells ==> InGrid(s.grid, c))
  }

  /** `s` with every occurrence of `x` taken out, the rest in order. */
  function Without(s: seq<Cell>, x: Cell): (r: seq<Cell>)
    ensures forall y :: y in r <==> y in s && y != x
  {
    if s == [] then []
    else if s[0] == x then Without(s[1..], x)
    else [s[0]] + Without(s[1..], x)
  }

  /** Taking out a cell that is not there changes nothing. */
  lemma {:induction false} WithoutAbsent(s: seq<Cell>, x: Cell)
    requires x !in s
    ensures Without(s, x) == s
  {
    if s != [] {
      WithoutAbsent(s[1..], x);
      assert s == [s[0]] + s[1..];
    }
  }

  /** In a duplicate-free selection, taking out the cell at index k leaves the
      cells before it and the cells after it, in their order. */
  lemma {:induction false} WithoutAt(s: seq<Cell>, k: int)
    requires Distinct(s) && 0 <= k < |s|
    ensures Without(s, s[k]) == s[..k] + s[k + 1..]
  {
    if k == 0 {
      assert s[0] !in s[1..];
      WithoutAbsent(s[1..], s[0]);
    } else {
      assert s[1..][k - 1] == s[k];
      assert Distinct(s[1..]);
      WithoutAt(s[1..], k - 1);
      assert s[1..][..k - 1] == s[1..k] && s[1..][k..] == s[k + 1..];
      assert s[0] != s[k];
      assert s[..k] == [s[0]] + s[1..k];
    }
  }

  lemma {:induction false} WithoutKeepsDistinct(s: seq<Cell>, x: Cell)
    requires Distinct(s)
    ensures Distinct(Without(s, x))
  {
    if s != [] {
      assert Distinct(s[1..]);
      WithoutKeepsDistinct(s[1..], x);
      if s[0] != x {
        var t := Without(s[1..], x);
        assert s[0] !in s[1..];
        assert s[0] !in t;
        assert ([s[0]] + t)[0] == s[0];
        assert forall i :: 0 < i < |[s[0]] + t| ==> ([s[0]] + t)[i] == t[i - 1];
      }
    }
  }

  /** A click on cell (row, col): a selected cell leaves the selection, any other
      cell is appended to it. */
  function HandleCellClick(s: Session, row: int, col: int): (r: Session)
    ensures r.grid == s.grid && r.foundWords == s.foundWords
    ensures Cell(row, col) in r.selectedCells <==> Cell(row, col) !in s.selectedCells
    ensures forall x :: x != Cell(row, col) ==> (x in r.selectedCells <==> x in s.selectedCells)
    ensures Cell(row, col) !in s.selectedCells ==>
      r.selectedCells == s.selectedCells + [Cell(row, col)]
    ensures Cell(row, col) in s.selectedCells ==>
      r.selectedCells == Without(s.selectedCells, Cell(row, col))
  {
    var cellId := Cell(row, col);
    if cellId in s.selectedCells then
      s.(selectedCells := Without(s.selectedCells, cellId))
    else
      s.(selectedCells := s.selectedCells + [cellId])
  }

  /** A click on a grid cell keeps the session invariant: in particular the
      selection never holds a cell twice. */
  lemma ClickKeepsValid(words: seq<string>, s: Session, row: int, col: int)
    requires Valid(words, s) && InGrid(s.grid, Cell(row, col))
    ensures Valid(words, HandleCellClick(s, row, col))
  {
    if Cell(row, col) in s.selectedCells {
      WithoutKeepsDistinct(s.selectedCells, Cell(row, col));
    } else {
      var t := s.selectedCells + [Cell(row, col)];
      assert forall i :: 0 <= i < |s.selectedCells| ==> t[i] == s.selectedCells[i];
    }
  }

  /** Clicking a selected cell again takes just that cell out and keeps every
      other selected cell in the order it was clicked. */
  lemma ClickKeepsOrder(s: Session, k: int)
    requires Distinct(s.selectedCells) && 0 <= k < |s.selectedCells|
    ensures var c := s.selectedCells[k];
      HandleCellClick(s, c.row, c.col).selectedCells ==
        s.selectedCells[..k] + s.selectedCells[k + 1..]
  {
    WithoutAt(s.selectedCells, k);
  }

  /** The text of one cell: nothing for an empty cell, else its letter. */
  function CellText(ch: char): string
  {
    if ch == EmptyCell then "" else [ch]
  }

  /** The selected cells' letters joined in selection order. */
  function SelectedLetters(g: Grid, cells: seq<Cell>): (r: string)
    requires forall c :: c in cells ==> InGrid(g, c)
    ensures |r| <= |cells|
  {
    if cells == [] then ""
    else CellText(CellValue(g, cells[0])) + SelectedLetters(g, cells[1..])
  }

  /** When no selected cell is empty, the letters are the cells' letters one by
      one. */
  lemma {:induction false} LettersOfFullCells(g: Grid, cells: seq<Cell>)
    requires forall c :: c in cells ==> InGrid(g, c) && CellValue(g, c) != EmptyCell
    ensures |SelectedLetters(g, cells)| == |cells|
    ensures forall i :: 0 <= i < |cells| ==> SelectedLetters(g, cells)[i] == CellValue(g, cells[i])
  {
    if cells != [] {
      LettersOfFullCells(g, cells[1..]);
      var rest := SelectedLetters(g, cells[1..]);
      assert SelectedLetters(g, cells) == [CellValue(g, cells[0])] + rest;
      assert forall i :: 1 <= i < |cells| ==> cells[1..][i - 1] == cells[i];
    }
  }

  /** A vocabulary word fits letters `s` when it equals them or their reversal;
      equivalently, when the letters spell the word forwards or backwards. */
  function Matches(word: string, s: string): (r: bool)
    ensures r <==> word == s || Reverse(word) == s
    ensures r ==> |word| == |s|
  {
    ReverseReverse(s);
    ReverseReverse(word);
    word == s || word == Reverse(s)
  }

  /** `w` is the first word of `words` that fits `s`. */
  ghost predicate IsFirstMatch(words: seq<string>, s: string, w: string)
  {
    exists k :: 0 <= k < |words| && words[k] == w && Matches(w, s) &&
      forall j :: 0 <= j < k ==> !Matches(words[j], s)
  }

  /** The vocabulary search: the first word fitting `s`, if any. */
  function Find(words: seq<string>, s: string): (r: Option<string>)
    ensures r.None? <==> forall k :: 0 <= k < |words| ==> !Matches(words[k], s)
    ensures r.Some? ==> IsFirstMatch(words, s, r.value)
  {
    if words == [] then None
    else if Matches(words[0], s) then
      Some(words[0])
    else
      var r := Find(words[1..], s);
      assert r.Some? ==> IsFirstMatch(words, s, r.value) by {
        if r.Some? {
          var k :| 0 <= k < |words[1..]| && words[1..][k] == r.value &&
            Matches(r.value, s) && forall j :: 0 <= j < k ==> !Matches(words[1..][j], s);
          assert forall j :: 0 <= j < k + 1 ==> !Matches(words[j], s) by {
            forall j | 0 <= j < k + 1 ensures !Matches(words[j], s) {
              if j > 0 { assert words[j] == words[1..][j - 1]; }
            }
          }
        }
      }
      r
  }

  /** The "verify" button.  The selected letters are looked up; a word not found
      before is appended to the found list and reported, with `completed` set
      when it is the last one missing.  The selection is cleared in every case.
      The code tests the found word for truthiness, which would also reject an
      empty word; no vocabulary word is empty (`VocabularyIsWords`), so for `Words`
      testing for a match is the same. */
  function CheckWord(words: seq<string>, s: Session): (r: (Session, Outcome))
    requires forall c :: c in s.selectedCells ==> InGrid(s.grid, c)
    ensures r.0.grid == s.grid && r.0.selectedCells == []
    ensures var letters := SelectedLetters(s.grid, s.selectedCells);
      && (r.1.NoMatch? <==> forall k :: 0 <= k < |words| ==> !Matches(words[k], letters))
      && (!r.1.NoMatch? ==> IsFirstMatch(words, letters, r.1.word))
    ensures r.1.Matched? ==>
      && r.1.word !in s.foundWords
      && r.0.foundWords == s.foundWords + [r.1.word]
      && (r.1.completed <==> |r.0.foundWords| == |words|)
    ensures r.1.AlreadyFound? ==> r.1.word in s.foundWords
    ensures !r.1.Matched? ==> r.0.foundWords == s.foundWords
  {
    var selectedLetters := SelectedLetters(s.grid, s.selectedCells);
    var foundWord := Find(words, selectedLetters);
    if foundWord.Some? && foundWord.value !in s.foundWords then
      (s.(foundWords := s.foundWords + [foundWord.value], selectedCells := []),
       Matched(foundWord.value, |s.foundWords| + 1 == |words|))
    else if foundWord.Some? then
      (s.(selectedCells := []), AlreadyFound(foundWord.value))
    else
      (s.(selectedCells := []), NoMatch)
  }

  /** Verification keeps the session invariant and only ever adds to the found
      list: the old list is a prefix of the new one. */
  lemma CheckKeepsValid(words: seq<string>, s: Session)
    requires Valid(words, s)
    ensures Valid(words, CheckWord(words, s).0)
    ensures s.foundWords <= CheckWord(words, s).0.foundWords
  {
    var (t, o) := CheckWord(words, s);
    if o.Matched? {
      var f := s.foundWords + [o.word];
      assert IsFirstMatch(words, SelectedLetters(s.grid, s.selectedCells), o.word);
      assert o.word in words;
      assert forall i :: 0 <= i < |s.foundWords| ==> f[i] == s.foundWords[i];
      assert f[|s.foundWords|] == o.word;
    }
  }

  /** The elements of a duplicate-free sequence are as many as its length. */
  lemma {:induction false} DistinctCard<T>(s: seq<T>)
    requires Distinct(s)
    ensures |set x | x in s| == |s|
  {
    if s != [] {
      assert Distinct(s[1..]);
      DistinctCard(s[1..]);
      assert s[0] !in s[1..];
      assert (set x | x in s) == (set x | x in s[1..]) + {s[0]};
    }
  }

  /** Completion boundary: a duplicate-free found list drawn from a duplicate-free
      vocabulary has the vocabulary's length exactly when it holds every word. */
  lemma AllFoundIffSameLength(words: seq<string>, found: seq<string>)
    requires Distinct(words) && Distinct(found)
    requires forall w :: w in found ==> w in words
    ensures |found| == |words| <==> forall w :: w in words ==> w in found
  {
    var a := set x | x in found;
    var b := set x | x in words;
    DistinctCard(found);
    DistinctCard(words);
    assert a <= b;
    assert a * b == a;
    assert |b - a| == |b| - |a|;
    if |found| == |words| {
      assert b - a == {};
      forall w | w in words ensures w in found {
        assert w in b;
      }
    }
    if forall w :: w in words ==> w in found {
      assert a == b;
    }
  }

  /** So on a valid session of a duplicate-free vocabulary, the completion flag of
      a new match is raised exactly when every word has now been found. */
  lemma CompletedIffAllFound(words: seq<string>, s: Session)
    requires Valid(words, s) && Distinct(words)
    requires CheckWord(words, s).1.Matched?
    ensures CheckWord(words, s).1.completed <==>
      forall w :: w in words ==> w in CheckWord(words, s).0.foundWords
  {
    CheckKeepsValid(words, s);
    AllFoundIffSameLength(words, CheckWord(words, s).0.foundWords);
  }

  /** No word of the vocabulary is the reversal of another (a palindrome is
      allowed), and no word occurs twice. */
  ghost predicate ReversalFree(words: seq<string>)
  {
    forall i, j ::
      (0 <= i < |words| && 0 <= j < |words| &&
       (words[i] == words[j] || words[i] == Reverse(words[j]))) ==> i == j
  }

  /** In a reversal-free vocabulary, the only word fitting a vocabulary word
      `w` or its reversal is `w` itself. */
  lemma OnlyItselfFits(words: seq<string>, w: string, s: string)
    requires ReversalFree(words) && w in words && (s == w || s == Reverse(w))
    ensures forall k :: 0 <= k < |words| && Matches(words[k], s) ==> words[k] == w
  {
    var j :| 0 <= j < |words| && words[j] == w;
    forall k | 0 <= k < |words| && Matches(words[k], s)
      ensures words[k] == w
    {
      SameWordAt(words, j, k, s);
    }
  }

  lemma SameWordAt(words: seq<string>, j: int, k: int, s: string)
    requires ReversalFree(words) && 0 <= j < |words| && 0 <= k < |words|
    requires s == words[j] || s == Reverse(words[j])
    requires Matches(words[k], s)
    ensures k == j
  {
    ReverseReverse(words[j]);
    var w, v := words[j], words[k];
    assert v == w || v == Reverse(w);
  }

  /** So such a word is found as itself, read either way. */
  lemma FindsWordEitherWay(words: seq<string>, w: string, s: string)
    requires ReversalFree(words) && w in words && (s == w || s == Reverse(w))
    ensures Find(words, s) == Some(w)
  {
    ReverseReverse(w);
    OnlyItselfFits(words, w, s);
    var j :| 0 <= j < |words| && words[j] == w;
    assert Matches(words[j], s);
  }

  /** The cells of a placed word, in order, spell it on a full grid. */
  lemma RunSpellsWord(g: Grid, w: string, p: Placement)
    requires IsFull(g) && LiesOn(g, w, p)
    ensures forall c :: c in RunCells(p, |w|) ==> InGrid(g, c)
    ensures SelectedLetters(g, RunCells(p, |w|)) == w
  {
    LettersOfFullCells(g, RunCells(p, |w|));
  }

  /** The same cells in reverse order spell the word backwards. */
  lemma ReversedRunSpellsReversal(g: Grid, w: string, p: Placement)
    requires IsFull(g) && LiesOn(g, w, p)
    ensures forall c :: c in Reverse(RunCells(p, |w|)) ==> InGrid(g, c)
    ensures SelectedLetters(g, Reverse(RunCells(p, |w|))) == Reverse(w)
  {
    var cells := RunCells(p, |w|);
    var back := Reverse(cells);
    forall c | c in back ensures InGrid(g, c) && CellValue(g, c) != EmptyCell {
      var i :| 0 <= i < |back| && back[i] == c;
      assert c == cells[|cells| - 1 - i];
    }
    LettersOfFullCells(g, back);
  }

  /** Verification of letters that find `w` reports `w`, as new or as found
      before. */
  lemma CheckReportsFoundWord(words: seq<string>, s: Session, w: string)
    requires forall c :: c in s.selectedCells ==> InGrid(s.grid, c)
    requires Find(words, SelectedLetters(s.grid, s.selectedCells)) == Some(w)
    ensures CheckWord(words, s).1 ==
      if w in s.foundWords then AlreadyFound(w) else Matched(w, |s.foundWords| + 1 == |words|)
  {
  }

  /** Verification symmetry: selecting the cells of a placed word, in order or
      in reverse order, reports that word, as new or as found before. */
  lemma SelectingWordMatches(words: seq<string>, s: Session, w: string, p: Placement)
    requires Valid(words, s) && ReversalFree(words)
    requires w in words && LiesOn(s.grid, w, p)
    ensures var cells := RunCells(p, |w|);
      (forall c :: c in cells ==> InGrid(s.grid, c)) &&
      CheckWord(words, s.(selectedCells := cells)).1 ==
        if w in s.foundWords then AlreadyFound(w) else Matched(w, |s.foundWords| + 1 == |words|)
    ensures var cells := Reverse(RunCells(p, |w|));
      (forall c :: c in cells ==> InGrid(s.grid, c)) &&
      CheckWord(words, s.(selectedCells := cells)).1 ==
        if w in s.foundWords then AlreadyFound(w) else Matched(w, |s.foundWords| + 1 == |words|)
  {
    RunSpellsWord(s.grid, w, p);
    FindsWordEitherWay(words, w, w);
    CheckReportsFoundWord(words, s.(selectedCells := RunCells(p, |w|)), w);
    ReversedRunSpellsReversal(s.grid, w, p);
    FindsWordEitherWay(words, w, Reverse(w));
    CheckReportsFoundWord(words, s.(selectedCells := Reverse(RunCells(p, |w|))), w);
  }

  /** Idempotent re-match: checking again the cells that just produced a match
      reports the word as found before and leaves the found list alone. */
  lemma RematchIsIdempotent(words: seq<string>, s: Session, cells: seq<Cell>)
    requires forall c :: c in cells ==> InGrid(s.grid, c)
    requires CheckWord(words, s.(selectedCells := cells)).1.Matched?
    ensures var (t, o) := CheckWord(words, s.(selectedCells := cells));
      var (t2, o2) := CheckWord(words, t.(selectedCells := cells));
      o2 == AlreadyFound(o.word) && t2.foundWords == t.foundWords
  {
  }

  /** The game's vocabulary is non-empty upper-case words. */
  lemma VocabularyIsWords()
    ensures forall k :: 0 <= k < |Words| ==> IsWord(Words[k]) && |Words[k]| > 0
  {
    assert IsWord("JUPITER") && IsWord("MARTE") && IsWord("VENUS") && IsWord("TIERRA");
    assert IsWord("LUNA") && IsWord("SOL") && IsWord("ESTRELLA") && IsWord("GALAXIA");
  }

  /** A vocabulary of non-empty words is reversal-free when no two different
      words have equal length and the same first letter, or equal length and
      the first letter of one equal to the last letter of the other: a word's
      reversal starts with its last letter. */
  lemma ReversalFreeBySignature(words: seq<string>)
    requires forall k :: 0 <= k < |words| ==> |words[k]| > 0
    requires forall i, j ::
      (0 <= i < |words| && 0 <= j < |words| && |words[i]| == |words[j]| &&
       (words[i][0] == words[j][0] || words[i][0] == words[j][|words[j]| - 1])) ==> i == j
    ensures ReversalFree(words) && Distinct(words)
  {
    forall i, j | 0 <= i < |words| && 0 <= j < |words| && words[i] == Reverse(words[j])
      ensures i == j
    {
      assert Reverse(words[j])[0] == words[j][|words[j]| - 1];
    }
  }

  /** The game's vocabulary has no repeated word and no word that is another's
      reversal. */
  lemma VocabularyIsReversalFree()
    ensures ReversalFree(Words) && Distinct(Words)
  {
    var lengths := [7, 5, 5, 6, 4, 3, 8, 7];
    var firsts := "JMVTLSEG";
    var lasts := "RESAALAA";
    assert forall k :: 0 <= k < |Words| ==>
      |Words[k]| == lengths[k] && Words[k][0] == firsts[k] && Words[k][|Words[k]| - 1] == lasts[k];
    forall i, j | 0 <= i < |Words| && 0 <= j < |Words| && lengths[i] == lengths[j] &&
      (firsts[i] == firsts[j] || firsts[i] == lasts[j])
      ensures i == j
    {
    }
    ReversalFreeBySignature(Words);
  }

  /** A new game: the filled first-fit layout of the vocabulary, no word found,
      nothing selected.  None stands for the placement candidates running out (the
      code would retry forever): it comes back exactly when the layout fails, and
      then names the word whose remaining candidates all fail on the grid it met. */
  method ResetGame(candidates: seq<Placement>, draw: (int, int) -> int)
    returns (r: Option<Session>, ghost failed: nat, ghost stuck: Grid, ghost from: nat)
    requires forall k :: 0 <= k < |candidates| ==> IsCandidate(candidates[k], Size)
    requires forall r, c :: 0 <= draw(r, c) < 26
    ensures r.Some? ==> |r.value.grid| == Size && Valid(Words, r.value)
    ensures r.Some? ==> r.value.foundWords == [] && r.value.selectedCells == []
    ensures r.Some? <==> Layout(EmptyGrid(Size), Words, candidates, 0, Size).Some?
    ensures r.Some? ==> r.value.grid == Fill(Layout(EmptyGrid(Size), Words, candidates, 0, Size).value, draw)
    ensures r.None? ==> failed < |Words| && from <= |candidates| && IsSquare(stuck, Size) && Clean(stuck)
    ensures r.None? ==> forall k :: 0 <= k < failed ==> Contains(stuck, Words[k], Size)
    ensures r.None? ==>
      forall k :: from <= k < |candidates| ==> !CanPlace(stuck, Words[failed], candidates[k], Size)
  {
    VocabularyIsWords();
    var grid, ok;
    grid, ok, failed, stuck, from := GenerateGrid(Words, Size, candidates, draw);
    if !ok {
      r := None;
      return;
    }
    r := Some(Session(ToRows(grid), [], []));
  }
}
