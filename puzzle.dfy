/** The 3x3 sliding-tile puzzle: nine tiles 0..8 laid out row by row, tile 8 is
    the blank.  Shuffling is a Fisher-Yates pass over the identity board; a click
    on a tile swaps it with the blank when its index is the blank's index plus or
    minus 1 or plus or minus 3 (with no check that a +-1 neighbour is on the same
    row). */
module Puzzle {

  /** Number of tiles on the board. */
  const Tiles: nat := 9

  /** The value of the blank tile. */
  const Blank: int := 8

  /** The solved board: every tile at its own index. */
  function Identity(): (p: seq<int>)
    ensures |p| == Tiles && forall i :: 0 <= i < |p| ==> p[i] == i
  {
    seq(Tiles, i => i)
  }

  /** `p` holds exactly the tiles 0..8, each once. */
  ghost predicate IsPermutation(p: seq<int>)
  {
    multiset(p) == multiset(Identity())
  }

  /** The win test: every piece equals its index, so the board is 0, 1, 2, ... */
  function IsSolved(p: seq<int>): (r: bool)
    ensures r <==> p == seq(|p|, i => i)
  {
    forall i :: 0 <= i < |p| ==> p[i] == i
  }

  /** The indices a click may have to move a tile into the blank at `empty`: the
      click rule lists them and tests membership.  They are the indices at
      distance 1 or 3 from the blank. */
  function IsValidMove(empty: int, index: int): (r: bool)
    ensures r <==> (if index < empty then empty - index else index - empty) in {1, 3}
  {
    index in [empty - 1, empty + 1, empty - 3, empty + 3]
  }

  /** The first index of `v` in `p`, or -1 when `v` does not occur. */
  function IndexOf(p: seq<int>, v: int): (k: int)
    ensures -1 <= k < |p|
    ensures k == -1 <==> v !in p
    ensures 0 <= k ==> p[k] == v && v !in p[..k]
  {
    if |p| == 0 then -1
    else if p[0] == v then 0
    else
      var k := IndexOf(p[1..], v);
      if k == -1 then -1 else k + 1
  }

  /** `p` with the entries at `i` and `j` exchanged. */
  function Swap(p: seq<int>, i: int, j: int): (r: seq<int>)
    requires 0 <= i < |p| && 0 <= j < |p|
    ensures |r| == |p| && r[i] == p[j] && r[j] == p[i]
    ensures forall k :: 0 <= k < |p| && k != i && k != j ==> r[k] == p[k]
    ensures multiset(r) == multiset(p)
  {
    p[i := p[j]][j := p[i]]
  }

  /** The Fisher-Yates steps i, i-1, ..., 1 applied to `p`: step k swaps the
      entries at k and draw(k), where draw(k) is the random index in [0, k]. */
  function FisherYates(p: seq<int>, draw: int -> int, i: int): (r: seq<int>)
    requires 0 <= i < |p|
    requires forall k :: 0 < k <= i ==> 0 <= draw(k) <= k
    ensures |r| == |p| && multiset(r) == multiset(p)
    decreases i
  {
    if i == 0 then p else FisherYates(Swap(p, i, draw(i)), draw, i - 1)
  }

  /** The board a shuffle deals for the random indices `draw`. */
  function Shuffled(draw: int -> int): (r: seq<int>)
    requires forall k :: 0 < k < Tiles ==> 0 <= draw(k) <= k
    ensures |r| == Tiles && multiset(r) == multiset(Identity())
  {
    FisherYates(Identity(), draw, Tiles - 1)
  }

  /** A shuffled board is a permutation of the tiles 0..8. */
  lemma ShuffledIsPermutation(draw: int -> int)
    requires forall k :: 0 < k < Tiles ==> 0 <= draw(k) <= k
    ensures |Shuffled(draw)| == Tiles && IsPermutation(Shuffled(draw))
  {
  }

  /** A value that sits at two different indices occurs twice in the multiset. */
  lemma {:induction false} TwiceInMultiset(p: seq<int>, i: int, j: int)
    requires 0 <= i < j < |p| && p[i] == p[j]
    ensures multiset(p)[p[i]] >= 2
  {
    assert p == p[..j] + p[j..];
    assert p[..j][i] == p[i];
    assert p[j..][0] == p[i];
    assert multiset(p) == multiset(p[..j]) + multiset(p[j..]);
  }

  /** A permutation has exactly one blank, and IndexOf finds it. */
  lemma {:induction false} BlankIsUnique(p: seq<int>)
    requires |p| == Tiles && IsPermutation(p)
    ensures 0 <= IndexOf(p, Blank) < Tiles && p[IndexOf(p, Blank)] == Blank
    ensures forall k :: 0 <= k < |p| && p[k] == Blank ==> k == IndexOf(p, Blank)
  {
    assert Identity()[Blank] == Blank;
    assert Blank in multiset(Identity());
    assert Blank in p;
    var multiplicity := multiset(Identity())[Blank];
    assert Identity() == [0, 1, 2, 3, 4, 5, 6, 7] + [8];
    assert multiplicity == 1;
    var e := IndexOf(p, Blank);
    forall k | 0 <= k < |p| && p[k] == Blank
      ensures k == e
    {
      if k < e {
        TwiceInMultiset(p, k, e);
      } else if e < k {
        TwiceInMultiset(p, e, k);
      }
    }
  }

  /** A valid move keeps a permutation and leaves the blank on the clicked index. */
  lemma MoveKeepsPermutation(p: seq<int>, index: int)
    requires |p| == Tiles && IsPermutation(p) && 0 <= index < Tiles
    ensures var e := IndexOf(p, Blank);
      0 <= e < Tiles &&
      IsPermutation(Swap(p, index, e)) && Swap(p, index, e)[index] == Blank
  {
    BlankIsUnique(p);
  }

  /** The win test holds of exactly one board: the identity. */
  lemma {:induction false} SolvedIsIdentity(p: seq<int>)
    requires |p| == Tiles
    ensures IsSolved(p) <==> p == Identity()
  {
    if IsSolved(p) {
      assert forall i :: 0 <= i < Tiles ==> p[i] == Identity()[i];
    }
  }

  /** Board geometry: the row and column of an index. */
  function Row(i: int): int { i / 3 }
  function Col(i: int): int { i % 3 }

  /** Two board indices that share an edge on the 3x3 board. */
  predicate Adjacent(a: int, b: int)
  {
    (Row(a) == Row(b) && (Col(a) - Col(b) == 1 || Col(b) - Col(a) == 1)) ||
    (Col(a) == Col(b) && (Row(a) - Row(b) == 1 || Row(b) - Row(a) == 1))
  }

  /** The click rule accepts exactly the edge neighbours of the blank plus the two
      "row wrap" pairs, where a +-1 step leaves the row: from the end of one row
      to the start of the next, or back. */
  lemma ValidMoveIsAdjacentOrWrap(e: int, index: int)
    requires 0 <= e < Tiles && 0 <= index < Tiles
    ensures IsValidMove(e, index) <==>
      Adjacent(e, index) ||
      (Col(e) == 2 && index == e + 1) || (Col(e) == 0 && index == e - 1)
  {
  }

  /** The wrap quirk is real: with the blank at the end of the first row, a click
      on the first tile of the second row moves that tile, though the two cells
      do not share an edge. */
  lemma RowWrapAccepted()
    ensures IsValidMove(2, 3) && !Adjacent(2, 3)
  {
  }

  /** The puzzle's state: the board, the move counter and the completion flag. */
  class PuzzleGame {
    var pieces: seq<int>
    var moves: nat
    var isComplete: bool

    /** Once shuffled, the board is a permutation of the nine tiles. */
    ghost predicate Valid()
      reads this
    {
      |pieces| == Tiles && IsPermutation(pieces)
    }

    /** The initial state, before the first shuffle. */
    constructor ()
      ensures pieces == [] && moves == 0 && !isComplete
    {
      pieces := [];
      moves := 0;
      isComplete := false;
    }

    /** Deals a new board; the moves counter and completion flag are reset. */
    method ShufflePuzzle(draw: int -> int)
      requires forall k :: 0 < k < Tiles ==> 0 <= draw(k) <= k
      modifies this
      ensures pieces == Shuffled(draw)
      ensures Valid() && moves == 0 && !isComplete
    {
      var newPieces := ShuffledPieces(draw);
      pieces := newPieces;
      moves := 0;
      isComplete := false;
    }

    /** A click on the tile at `index`. */
    method HandlePieceClick(index: int)
      requires Valid() && 0 <= index < Tiles
      modifies this
      ensures Valid()
      ensures var e := IndexOf(old(pieces), Blank);
        0 <= e < Tiles &&
        if IsValidMove(e, index) then
          pieces == Swap(old(pieces), index, e) &&
          moves == old(moves) + 1 &&
          isComplete == (old(isComplete) || IsSolved(pieces))
        else
          pieces == old(pieces) && moves == old(moves) && isComplete == old(isComplete)
    {
      MoveKeepsPermutation(pieces, index);
      var emptyIndex := IndexOf(pieces, Blank);
      if IsValidMove(emptyIndex, index) {
        var newPieces := pieces[index := pieces[emptyIndex]][emptyIndex := pieces[index]];
        pieces := newPieces;
        moves := moves + 1;
        var isWin := IsSolved(newPieces);
        if isWin {
          isComplete := true;
        }
      }
    }
  }

  /** The Fisher-Yates loop of the shuffle, run in place on a fresh array that
      starts as the identity board. */
  method ShuffledPieces(draw: int -> int) returns (p: seq<int>)
    requires forall k :: 0 < k < Tiles ==> 0 <= draw(k) <= k
    ensures p == Shuffled(draw)
    ensures |p| == Tiles && IsPermutation(p)
  {
    var newPieces := new int[Tiles](i => i);
    assert newPieces[..] == Identity();
    var i := newPieces.Length - 1;
    while i > 0
      invariant 0 <= i < Tiles
      invariant FisherYates(newPieces[..], draw, i) == Shuffled(draw)
    {
      var j := draw(i);
      ghost var before := newPieces[..];
      newPieces[i], newPieces[j] := newPieces[j], newPieces[i];
      assert newPieces[..] == Swap(before, i, j);
      i := i - 1;
    }
    p := newPieces[..];
    ShuffledIsPermutation(draw);
  }
}
